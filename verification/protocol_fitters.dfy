/** Producers whose request would fit.  The hand-off wakes one producer at a time and does not
    look at the sizes of the requests, so one that fits can be left asleep; here is exactly when. */
module ProtocolFitters {
  import opened Bytes
  import opened FifoSpec
  import opened Protocol
  import opened ProtocolSafety
  import opened ProtocolWakeups
  import opened Sets

  ghost predicate SleeperFits(c: Config, s: State, q: seq<Message>) {
    exists p | p in Blockeds(s.threads, false) :: RequestFits(c, q, s.threads[p].call)
  }

  /** While a sleeping producer's request would fit, some awakened thread has still to run. */
  ghost predicate FittersServed(c: Config, s: State) {
    SleeperFits(c, s, s.queue) ==> Awakes(s.threads, true) + Awakes(s.threads, false) != {}
  }

  // ---- The five ways a fitting producer is left asleep ----
  // Each is the guard of a branch, in terms of the state before the lock hold; `NotEmptyAt` is the
  // counter of waiting consumers as the code reads it there.

  /** A put that still does not fit goes back to sleep and has no consumer to signal. */
  ghost predicate SleepsAgain(c: Config, s: State, t: Tid, elapsed: nat)
    requires Runnable(s, t)
  {
    && s.threads[t].call.Put? && !RequestFits(c, s.queue, s.threads[t].call)
    && MayBlock(s.threads[t], elapsed) && NotEmptyAt(s, t) == 0
    && SleeperFits(c, s, s.queue)
  }

  /** A put that still does not fit runs out of time. */
  ghost predicate GivesUp(c: Config, s: State, t: Tid, elapsed: nat)
    requires Runnable(s, t)
  {
    && s.threads[t].call.Put? && !RequestFits(c, s.queue, s.threads[t].call)
    && !MayBlock(s.threads[t], elapsed)
    && SleeperFits(c, s, s.queue)
  }

  /** A put stores and leaves room for exactly one header, while a producer sleeps that has one
      empty message to put: the test for the smallest message asks for a byte more. */
  ghost predicate LeavesOneHeader(c: Config, s: State, t: Tid)
    requires Runnable(s, t)
  {
    && s.threads[t].call.Put? && RequestFits(c, s.queue, s.threads[t].call)
    && NotEmptyAt(s, t) == 0
    && FrameBytes(s.queue) + FrameBytes(s.threads[t].call.msgs) + HEADER_BYTES == c.maxSizeBytes
    && |s.queue| + |s.threads[t].call.msgs| + 1 <= c.maxSize
    && (exists p | p in Blockeds(s.threads, false) :: s.threads[p].call.msgs == [[]])
  }

  /** A get finds messages but its limits or its buffer do not allow it even the first one, and
      it has no consumer to signal. */
  ghost predicate TakesNothing(c: Config, s: State, t: Tid)
    requires Runnable(s, t)
  {
    && s.threads[t].call.Get? && s.queue != [] && NotEmptyAt(s, t) == 0
    && AllowsNothing(s.queue[0], s.threads[t].call.lim)
    && SleeperFits(c, s, s.queue)
  }

  predicate AllowsNothing(first: Message, lim: Limits) {
    lim.maxMessages == 0 || lim.maxBytes == 0 || lim.bufferSize < HEADER_BYTES + |first|
  }

  /** A get finds the queue empty. */
  ghost predicate FindsNothing(c: Config, s: State, t: Tid)
    requires Runnable(s, t)
  {
    s.threads[t].call.Get? && s.queue == [] && SleeperFits(c, s, s.queue)
  }

  ghost predicate LastAwake(s: State, t: Tid) {
    Awakes(s.threads, true) + Awakes(s.threads, false) == {t}
  }

  /** The last awakened thread runs into one of the five. */
  ghost predicate LosesFitter(c: Config, s: State, step: Step) {
    && Enabled(c, s, step) && step.Run? && LastAwake(s, step.tid)
    && (|| SleepsAgain(c, s, step.tid, step.elapsed)
        || GivesUp(c, s, step.tid, step.elapsed)
        || LeavesOneHeader(c, s, step.tid)
        || TakesNothing(c, s, step.tid)
        || FindsNothing(c, s, step.tid))
  }

  // ---- The guards are exactly the silent holds ----

  /** The hold as seen from its result: nobody is left awake, nobody is signalled, and a sleeper
      fits what is left. */
  ghost predicate EndsSilently(c: Config, s: State, step: Step) {
    && Enabled(c, s, step) && step.Run?
    && Awakes(s.threads, true) + Awakes(s.threads, false) <= {step.tid}
    && HoldOf(c, s, step.tid, step.elapsed).signal == NoSignal
    && SleeperFits(c, s, HoldOf(c, s, step.tid, step.elapsed).queue)
  }

  lemma {:induction false} OneHeader(msgs: seq<Message>)
    ensures msgs != [] ==> FrameBytes(msgs) >= HEADER_BYTES
    ensures FrameBytes(msgs) == HEADER_BYTES <==> msgs == [[]]
  {
    if msgs != [] {
      OneHeader(msgs[1..]);
      assert msgs == [msgs[0]] + msgs[1..];
    }
  }

  lemma NothingTaken(q: seq<Message>, lim: Limits)
    requires q != []
    ensures GreedyLength(q, lim) == 0 <==> AllowsNothing(q[0], lim)
  {
    assert q[..0] == [] && q[..1] == [q[0]];
    assert FrameBytes([q[0]]) == HEADER_BYTES + |q[0]|;
  }

  lemma MoreLeavesLess(c: Config, s: State, q: seq<Message>, msgs: seq<Message>)
    requires SleeperFits(c, s, q + msgs)
    ensures SleeperFits(c, s, q)
  {
    FrameBytesConcat(q, msgs);
    var p :| p in Blockeds(s.threads, false) && RequestFits(c, q + msgs, s.threads[p].call);
    assert RequestFits(c, q, s.threads[p].call);
  }

  /** After a store only an empty message can fit where the smallest-message test fails. */
  lemma OnlyEmptyMessagesAreMissed(c: Config, s: State, q: seq<Message>)
    requires WaitersHaveMessages(s)
    ensures SleeperFits(c, s, q) && !CanFit(c, q, MIN_MSG_SIZE, 1) <==>
            && FrameBytes(q) + HEADER_BYTES == c.maxSizeBytes && |q| + 1 <= c.maxSize
            && exists p | p in Blockeds(s.threads, false) :: s.threads[p].call.msgs == [[]]
  {
    OneHeader([[]]);
    forall p | p in Blockeds(s.threads, false)
      ensures RequestFits(c, q, s.threads[p].call) && !CanFit(c, q, MIN_MSG_SIZE, 1) <==>
              && FrameBytes(q) + HEADER_BYTES == c.maxSizeBytes && |q| + 1 <= c.maxSize
              && s.threads[p].call.msgs == [[]]
    {
      OneHeader(s.threads[p].call.msgs);
    }
  }

  lemma SilentPut(c: Config, s: State, step: Step)
    requires Invariant(c, s) && FittersServed(c, s) && Enabled(c, s, step) && step.Run?
    requires s.threads[step.tid].call.Put?
    ensures EndsSilently(c, s, step) <==> LosesFitter(c, s, step)
  {
    var t, msgs := step.tid, s.threads[step.tid].call.msgs;
    OwnWaitCounted(s, t);
    if RequestFits(c, s.queue, s.threads[t].call) {
      FrameBytesConcat(s.queue, msgs);
      OnlyEmptyMessagesAreMissed(c, s, s.queue + msgs);
      if SleeperFits(c, s, s.queue + msgs) {
        MoreLeavesLess(c, s, s.queue, msgs);
      }
    }
  }

  lemma SilentGet(c: Config, s: State, step: Step)
    requires Invariant(c, s) && FittersServed(c, s) && Enabled(c, s, step) && step.Run?
    requires s.threads[step.tid].call.Get?
    ensures EndsSilently(c, s, step) <==> LosesFitter(c, s, step)
  {
    var t, lim := step.tid, s.threads[step.tid].call.lim;
    OwnWaitCounted(s, t);
    if s.queue != [] {
      NothingTaken(s.queue, lim);
      assert s.queue[0..] == s.queue;
    }
  }

  /** A signal always leaves somebody awake: the counters count nobody who has gone. */
  lemma SignalLeavesSomeoneAwake(c: Config, s: State, step: Step, consumers: bool)
    requires CountersExact(s) && Enabled(c, s, step) && step.Run?
    requires HoldOf(c, s, step.tid, step.elapsed).signal == if consumers then WakeConsumer else WakeProducer
    ensures Awakes(Apply(c, s, step).threads, consumers) != {}
  {
    if Blockeds(s.threads, consumers) != {} {
      SignalWakes(c, s, step, consumers);
    } else {
      RunMovesThreads(c, s, step, consumers);
      SignalMeansCounted(c, s, step.tid, step.elapsed);
      CountedAreAwake(s, step.tid, consumers);
    }
  }

  /** Nobody signals a side without having read a counter above 0 there. */
  lemma SignalMeansCounted(c: Config, s: State, t: Tid, elapsed: nat)
    requires CountersExact(s) && Runnable(s, t)
    ensures HoldOf(c, s, t, elapsed).signal == WakeConsumer ==> NotEmptyAt(s, t) > 0
    ensures HoldOf(c, s, t, elapsed).signal == WakeProducer ==> NotFullAt(s, t) > 0
  {
    OwnWaitCounted(s, t);
  }

  lemma CountedAreAwake(s: State, t: Tid, consumers: bool)
    requires CountersExact(s) && Runnable(s, t) && Blockeds(s.threads, consumers) == {}
    ensures (if consumers then NotEmptyAt(s, t) else NotFullAt(s, t)) == |Awakes(s.threads, consumers) - {t}|
  {
    WithoutOne(Awakes(s.threads, consumers), t);
  }

  lemma SilentMoves(c: Config, s: State, step: Step)
    requires Enabled(c, s, step) && step.Run?
    requires HoldOf(c, s, step.tid, step.elapsed).signal == NoSignal
    ensures Awakes(Apply(c, s, step).threads, true) + Awakes(Apply(c, s, step).threads, false)
         == Awakes(s.threads, true) + Awakes(s.threads, false) - {step.tid}
    ensures SleeperFits(c, Apply(c, s, step), HoldOf(c, s, step.tid, step.elapsed).queue)
       <==> SleeperFits(c, s, HoldOf(c, s, step.tid, step.elapsed).queue)
  {
    RunMovesThreads(c, s, step, true);
    RunMovesThreads(c, s, step, false);
    var s', q := Apply(c, s, step), HoldOf(c, s, step.tid, step.elapsed).queue;
    forall p | p in s.threads && p != step.tid ensures p in s'.threads && s'.threads[p] == s.threads[p] {
    }
    assert step.tid in Blockeds(s'.threads, false) ==> !RequestFits(c, q, s'.threads[step.tid].call);
  }

  lemma RunServesFitters(c: Config, s: State, step: Step)
    requires CountersExact(s) && Enabled(c, s, step) && step.Run?
    ensures FittersServed(c, Apply(c, s, step)) <==> !EndsSilently(c, s, step)
  {
    var signal := HoldOf(c, s, step.tid, step.elapsed).signal;
    if signal == NoSignal {
      SilentMoves(c, s, step);
    } else {
      SignalLeavesSomeoneAwake(c, s, step, signal == WakeConsumer);
    }
  }

  /** Every step keeps fitting producers served, except exactly `LosesFitter`. */
  lemma StepServesFitters(c: Config, s: State, step: Step)
    requires Invariant(c, s) && Enabled(c, s, step) && FittersServed(c, s)
    ensures FittersServed(c, Apply(c, s, step)) <==> !LosesFitter(c, s, step)
  {
    if !step.Run? {
      UnblockMoves(c, s, step, true);
      UnblockMoves(c, s, step, false);
      UnblockKeepsCalls(c, s, step);
    } else {
      if s.threads[step.tid].call.Put? {
        SilentPut(c, s, step);
      } else {
        SilentGet(c, s, step);
      }
      RunServesFitters(c, s, step);
    }
  }

  lemma UnblockKeepsCalls(c: Config, s: State, step: Step)
    requires Enabled(c, s, step) && !step.Run?
    ensures SleeperFits(c, Apply(c, s, step), s.queue) ==> SleeperFits(c, s, s.queue)
  {
    UnblockMoves(c, s, step, false);
  }

  /** If a producer sleeps, a put that fits with room for one more smallest message, and a get
      whose limits allow the first message, leave somebody awake, whatever was awake before. */
  lemma PassesOn(c: Config, s: State, step: Step)
    requires CountersExact(s) && Enabled(c, s, step) && step.Run?
    requires Blockeds(s.threads, false) != {}
    requires match s.threads[step.tid].call
             case Put(msgs, _) => CanFit(c, s.queue, FrameBytes(msgs) + MIN_MSG_SIZE, |msgs| + 1)
             case Get(lim, _) => s.queue != [] && !AllowsNothing(s.queue[0], lim)
    ensures Awakes(Apply(c, s, step).threads, true) + Awakes(Apply(c, s, step).threads, false) != {}
  {
    OwnWaitCounted(s, step.tid);
    if s.threads[step.tid].call.Put? {
      FrameBytesConcat(s.queue, s.threads[step.tid].call.msgs);
    } else {
      NothingTaken(s.queue, s.threads[step.tid].call.lim);
    }
    SignalLeavesSomeoneAwake(c, s, step, HoldOf(c, s, step.tid, step.elapsed).signal == WakeConsumer);
  }

  // ---- Over whole runs ----

  lemma {:induction false} FittersServedUpTo(c: Config, states: seq<State>, steps: seq<Step>, i: nat)
    requires IsRun(c, states, steps) && i < |states|
    requires forall j | 0 <= j < i :: !LosesFitter(c, states[j], steps[j])
    ensures FittersServed(c, states[i])
  {
    if i > 0 {
      FittersServedUpTo(c, states, steps, i - 1);
      RunKeepsInvariant(c, states, steps, i - 1);
      StepServesFitters(c, states[i - 1], steps[i - 1]);
    }
  }

  /** A run never leaves a fitting producer asleep with nobody awake if and only if its last
      awakened thread never runs into one of the five guards. */
  lemma FittersServedOverRuns(c: Config, states: seq<State>, steps: seq<Step>)
    requires IsRun(c, states, steps)
    ensures (forall i | 0 <= i < |states| :: FittersServed(c, states[i]))
       <==> (forall i | 0 <= i < |steps| :: !LosesFitter(c, states[i], steps[i]))
  {
    if forall i | 0 <= i < |states| :: FittersServed(c, states[i]) {
      forall i | 0 <= i < |steps| ensures !LosesFitter(c, states[i], steps[i]) {
        assert FittersServed(c, states[i]) && FittersServed(c, states[i + 1]);
        RunKeepsInvariant(c, states, steps, i);
        StepServesFitters(c, states[i], steps[i]);
      }
    } else if forall i | 0 <= i < |steps| :: !LosesFitter(c, states[i], steps[i]) {
      forall i | 0 <= i < |states| ensures FittersServed(c, states[i]) {
        FittersServedUpTo(c, states, steps, i);
      }
    }
  }
}
