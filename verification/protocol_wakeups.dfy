/** The wake-up hand-off.  A put wakes a consumer, a get wakes a producer or else another
    consumer, and a put that has to sleep wakes a consumer first.  Here is exactly when that is
    enough for nobody to be left asleep while there is something for them to do. */
module ProtocolWakeups {
  import opened FifoSpec
  import opened Protocol
  import opened ProtocolSafety

  /** While messages wait and a consumer sleeps, some awakened thread has still to run. */
  ghost predicate ConsumersServed(s: State) {
    s.queue != [] && Blockeds(s.threads, true) != {} ==> Awakes(s.threads, true) + Awakes(s.threads, false) != {}
  }

  /** While the queue is empty and a producer sleeps, some awakened producer has still to run. */
  ghost predicate ProducersServed(s: State) {
    s.queue == [] && Blockeds(s.threads, false) != {} ==> Awakes(s.threads, false) != {}
  }

  predicate RequestFits(c: Config, q: seq<Message>, call: Call) {
    call.Put? && CanFit(c, q, FrameBytes(call.msgs), |call.msgs|)
  }

  /** A thread that is given the lock may wait: for the first time with its whole timeout, or after
      a wait of `elapsed` microseconds with what that left. */
  predicate MayBlock(th: Thread, elapsed: nat) {
    match th
    case Fresh(call, timeout) => call.block && timeout > 0
    case Awake(call, remaining) => call.block && remaining > elapsed
    case _ => false
  }

  /** A producer that has waited finds no room and no time left: the branch that returns Q_FULL. */
  ghost predicate WaitedThenFull(c: Config, s: State, step: Step) {
    && Enabled(c, s, step) && step.Run?
    && s.threads[step.tid].Awake? && s.threads[step.tid].call.Put?
    && !RequestFits(c, s.queue, s.threads[step.tid].call)
    && !MayBlock(s.threads[step.tid], step.elapsed)
  }

  /** The one way to break the hand-off: the last awakened thread is a producer that has waited
      and gives up, while messages wait and a consumer sleeps. */
  ghost predicate DropsLastWake(c: Config, s: State, step: Step) {
    && WaitedThenFull(c, s, step)
    && s.queue != [] && Blockeds(s.threads, true) != {}
    && Awakes(s.threads, true) + Awakes(s.threads, false) == {step.tid}
  }

  predicate FitsEmptyQueue(c: Config, call: Call) {
    call.Put? ==> RequestFits(c, [], call)
  }

  /** An oversized put meets an empty queue, no other producer is awake, and after the step some
      producer is asleep. */
  ghost predicate OversizedStrands(c: Config, s: State, step: Step) {
    && Enabled(c, s, step) && step.Run? && s.queue == []
    && !FitsEmptyQueue(c, s.threads[step.tid].call)
    && Awakes(s.threads, false) <= {step.tid}
    && (Blockeds(s.threads, false) != {} || MayBlock(s.threads[step.tid], step.elapsed))
  }

  lemma UnblockMoves(c: Config, s: State, step: Step, consumers: bool)
    requires Enabled(c, s, step) && !step.Run?
    ensures Blockeds(Apply(c, s, step).threads, consumers) <= Blockeds(s.threads, consumers)
    ensures Awakes(Apply(c, s, step).threads, consumers) >= Awakes(s.threads, consumers)
    ensures step.Unblock? && s.threads[step.tid].call.Get? == consumers
            ==> step.tid in Awakes(Apply(c, s, step).threads, consumers)
  {
    UpdateThread(s.threads, step.tid, Apply(c, s, step).threads[step.tid], consumers);
  }

  /** A running thread's own wait is the only one its counter no longer shows. */
  lemma OwnWaitCounted(s: State, t: Tid)
    requires CountersExact(s) && Runnable(s, t)
    ensures NotEmptyAt(s, t) >= |Blockeds(s.threads, true)|
    ensures NotFullAt(s, t) >= |Blockeds(s.threads, false)|
  {
    if s.threads[t].Awake? {
      assert t in Awakes(s.threads, s.threads[t].call.Get?);
    }
  }

  /** A signal to a side where somebody sleeps leaves somebody awake there. */
  lemma SignalWakes(c: Config, s: State, step: Step, consumers: bool)
    requires Enabled(c, s, step) && step.Run? && Blockeds(s.threads, consumers) != {}
    requires HoldOf(c, s, step.tid, step.elapsed).signal == if consumers then WakeConsumer else WakeProducer
    ensures Awakes(Apply(c, s, step).threads, consumers) != {}
  {
    RunMovesThreads(c, s, step, consumers);
    assert step.woken in Awakes(Apply(c, s, step).threads, consumers);
  }

  /** A put that stores or sleeps wakes a sleeping consumer. */
  lemma PutWakesConsumer(c: Config, s: State, step: Step)
    requires CountersExact(s) && Enabled(c, s, step)
    requires step.Run? && s.threads[step.tid].call.Put?
    requires !PutEffectOf(c, s, step.tid, step.elapsed).outcome.Full?
    ensures ConsumersServed(Apply(c, s, step))
  {
    if Blockeds(s.threads, true) != {} {
      OwnWaitCounted(s, step.tid);
      SignalWakes(c, s, step, true);
    } else {
      RunMovesThreads(c, s, step, true);
    }
  }

  /** A put that gives up wakes nobody, and may have been the last one awake. */
  lemma GivingUpServesConsumers(c: Config, s: State, step: Step)
    requires Enabled(c, s, step) && ConsumersServed(s)
    requires step.Run? && s.threads[step.tid].call.Put?
    requires PutEffectOf(c, s, step.tid, step.elapsed).outcome.Full?
    ensures ConsumersServed(Apply(c, s, step)) <==> !DropsLastWake(c, s, step)
  {
    RunMovesThreads(c, s, step, true);
    RunMovesThreads(c, s, step, false);
    var before := Awakes(s.threads, true) + Awakes(s.threads, false);
    var after := Awakes(Apply(c, s, step).threads, true) + Awakes(Apply(c, s, step).threads, false);
    assert after == before - {step.tid};
    assert step.tid in before <==> s.threads[step.tid].Awake?;
  }

  /** A get that leaves messages behind wakes a producer or, failing that, another consumer. */
  lemma GetServesConsumers(c: Config, s: State, step: Step)
    requires CountersExact(s) && Enabled(c, s, step)
    requires step.Run? && s.threads[step.tid].call.Get?
    ensures ConsumersServed(Apply(c, s, step))
  {
    RunMovesThreads(c, s, step, true);
    OwnWaitCounted(s, step.tid);
    if GetEffectOf(s, step.tid, step.elapsed).queue != [] && Blockeds(s.threads, true) != {} {
      if HoldOf(c, s, step.tid, step.elapsed).signal == WakeConsumer {
        SignalWakes(c, s, step, true);
      } else {
        GetFindsProducer(c, s, step);
      }
    }
  }

  lemma GetFindsProducer(c: Config, s: State, step: Step)
    requires CountersExact(s) && Enabled(c, s, step)
    requires step.Run? && s.threads[step.tid].call.Get?
    requires HoldOf(c, s, step.tid, step.elapsed).signal == WakeProducer
    ensures Awakes(Apply(c, s, step).threads, false) != {}
  {
    if Blockeds(s.threads, false) != {} {
      SignalWakes(c, s, step, false);
    } else {
      RunMovesThreads(c, s, step, false);
      assert step.tid !in Awakes(s.threads, false);
    }
  }

  /** Every step keeps consumers served, except exactly `DropsLastWake`. */
  lemma StepServesConsumers(c: Config, s: State, step: Step)
    requires Invariant(c, s) && Enabled(c, s, step) && ConsumersServed(s)
    ensures ConsumersServed(Apply(c, s, step)) <==> !DropsLastWake(c, s, step)
  {
    if !step.Run? {
      UnblockMoves(c, s, step, true);
      UnblockMoves(c, s, step, false);
    } else if s.threads[step.tid].call.Put? {
      if PutEffectOf(c, s, step.tid, step.elapsed).outcome.Full? {
        GivingUpServesConsumers(c, s, step);
      } else {
        PutWakesConsumer(c, s, step);
      }
    } else {
      GetServesConsumers(c, s, step);
    }
  }

  lemma PutServesProducers(c: Config, s: State, step: Step)
    requires WaitersHaveMessages(s) && Enabled(c, s, step) && ProducersServed(s)
    requires step.Run? && s.threads[step.tid].call.Put?
    ensures ProducersServed(Apply(c, s, step)) <==> !OversizedStrands(c, s, step)
  {
    RunMovesThreads(c, s, step, false);
    var e := PutEffectOf(c, s, step.tid, step.elapsed);
    if e.outcome.Stored? {
      assert e.queue == [] ==> s.threads[step.tid].call.msgs == [];
    } else {
      assert Woken(c, s, step, false) == {};
    }
  }

  lemma GetServesProducers(c: Config, s: State, step: Step)
    requires CountersExact(s) && Enabled(c, s, step) && ProducersServed(s)
    requires step.Run? && s.threads[step.tid].call.Get?
    ensures ProducersServed(Apply(c, s, step))
  {
    RunMovesThreads(c, s, step, false);
    var s' := Apply(c, s, step);
    if s'.queue == [] && Blockeds(s'.threads, false) != {} && s.queue != [] {
      assert s.notFull > 0;
      assert step.woken in Awakes(s'.threads, false);
    }
  }

  /** Every step keeps producers served, except exactly `OversizedStrands`. */
  lemma StepServesProducers(c: Config, s: State, step: Step)
    requires Invariant(c, s) && Enabled(c, s, step) && ProducersServed(s)
    ensures ProducersServed(Apply(c, s, step)) <==> !OversizedStrands(c, s, step)
  {
    if !step.Run? {
      UnblockMoves(c, s, step, false);
    } else if s.threads[step.tid].call.Put? {
      PutServesProducers(c, s, step);
    } else {
      GetServesProducers(c, s, step);
    }
  }

  // ---- Over whole runs ----

  lemma {:induction false} ConsumersServedUpTo(c: Config, states: seq<State>, steps: seq<Step>, i: nat)
    requires IsRun(c, states, steps) && i < |states|
    requires forall j | 0 <= j < i :: !DropsLastWake(c, states[j], steps[j])
    ensures ConsumersServed(states[i])
  {
    if i > 0 {
      ConsumersServedUpTo(c, states, steps, i - 1);
      RunKeepsInvariant(c, states, steps, i - 1);
      StepServesConsumers(c, states[i - 1], steps[i - 1]);
    }
  }

  /** No stranded consumer: a run serves its consumers throughout if and only if it never drops
      its last wake-up. */
  lemma ConsumersServedOverRuns(c: Config, states: seq<State>, steps: seq<Step>)
    requires IsRun(c, states, steps)
    ensures (forall i | 0 <= i < |states| :: ConsumersServed(states[i]))
       <==> (forall i | 0 <= i < |steps| :: !DropsLastWake(c, states[i], steps[i]))
  {
    if forall i | 0 <= i < |states| :: ConsumersServed(states[i]) {
      forall i | 0 <= i < |steps| ensures !DropsLastWake(c, states[i], steps[i]) {
        assert ConsumersServed(states[i]) && ConsumersServed(states[i + 1]);
        RunKeepsInvariant(c, states, steps, i);
        StepServesConsumers(c, states[i], steps[i]);
      }
    } else if forall i | 0 <= i < |steps| :: !DropsLastWake(c, states[i], steps[i]) {
      forall i | 0 <= i < |states| ensures ConsumersServed(states[i]) {
        ConsumersServedUpTo(c, states, steps, i);
      }
    }
  }

  lemma {:induction false} ProducersServedUpTo(c: Config, states: seq<State>, steps: seq<Step>, i: nat)
    requires IsRun(c, states, steps) && i < |states|
    requires forall j | 0 <= j < i :: !OversizedStrands(c, states[j], steps[j])
    ensures ProducersServed(states[i])
  {
    if i > 0 {
      ProducersServedUpTo(c, states, steps, i - 1);
      RunKeepsInvariant(c, states, steps, i - 1);
      StepServesProducers(c, states[i - 1], steps[i - 1]);
    }
  }

  /** No stranded producer: the same for producers and oversized requests. */
  lemma ProducersServedOverRuns(c: Config, states: seq<State>, steps: seq<Step>)
    requires IsRun(c, states, steps)
    ensures (forall i | 0 <= i < |states| :: ProducersServed(states[i]))
       <==> (forall i | 0 <= i < |steps| :: !OversizedStrands(c, states[i], steps[i]))
  {
    if forall i | 0 <= i < |states| :: ProducersServed(states[i]) {
      forall i | 0 <= i < |steps| ensures !OversizedStrands(c, states[i], steps[i]) {
        assert ProducersServed(states[i]) && ProducersServed(states[i + 1]);
        RunKeepsInvariant(c, states, steps, i);
        StepServesProducers(c, states[i], steps[i]);
      }
    } else if forall i | 0 <= i < |steps| :: !OversizedStrands(c, states[i], steps[i]) {
      forall i | 0 <= i < |states| ensures ProducersServed(states[i]) {
        ProducersServedUpTo(c, states, steps, i);
      }
    }
  }

  /** No call ever asks for more than an empty queue holds, which callers can see to, and no
      producer's time runs out while it waits, which depends on the schedule unless timeouts
      are out of reach. */
  ghost predicate WellBehaved(c: Config, states: seq<State>, steps: seq<Step>)
    requires IsRun(c, states, steps)
  {
    && (forall i | 0 <= i < |steps| && steps[i].Start? :: FitsEmptyQueue(c, steps[i].call))
    && (forall i | 0 <= i < |steps| :: !WaitedThenFull(c, states[i], steps[i]))
  }

  ghost predicate RequestsFit(c: Config, s: State) {
    forall t | t in s.threads && !s.threads[t].Idle? :: FitsEmptyQueue(c, s.threads[t].call)
  }

  lemma {:induction false} StartedRequestsFit(c: Config, states: seq<State>, steps: seq<Step>, i: nat)
    requires IsRun(c, states, steps) && i < |states|
    requires forall i | 0 <= i < |steps| && steps[i].Start? :: FitsEmptyQueue(c, steps[i].call)
    ensures RequestsFit(c, states[i])
  {
    if i > 0 {
      StartedRequestsFit(c, states, steps, i - 1);
      var s, s' := states[i - 1], states[i];
      forall t | t in s'.threads && !s'.threads[t].Idle? ensures FitsEmptyQueue(c, s'.threads[t].call) {
        StepKeepsCall(c, s, steps[i - 1], t);
      }
    }
  }

  lemma StepKeepsCall(c: Config, s: State, step: Step, t: Tid)
    requires Enabled(c, s, step)
    requires t in Apply(c, s, step).threads && !Apply(c, s, step).threads[t].Idle?
    ensures (step.Start? && step.call == Apply(c, s, step).threads[t].call)
         || (t in s.threads && !s.threads[t].Idle? && s.threads[t].call == Apply(c, s, step).threads[t].call)
  {
  }

  /** When every awakened thread of a well-behaved run has run, sleeping consumers mean an empty
      queue and nobody sleeps on the other side: a blocked consumer and a blocked producer never
      wait for each other. */
  lemma NoMutualSleep(c: Config, states: seq<State>, steps: seq<Step>, i: nat)
    requires IsRun(c, states, steps) && i < |states|
    requires WellBehaved(c, states, steps)
    requires Awakes(states[i].threads, true) == Awakes(states[i].threads, false) == {}
    ensures Blockeds(states[i].threads, true) != {} ==>
              states[i].queue == [] && Blockeds(states[i].threads, false) == {}
  {
    forall j | 0 <= j < |steps|
      ensures !DropsLastWake(c, states[j], steps[j]) && !OversizedStrands(c, states[j], steps[j])
    {
      StartedRequestsFit(c, states, steps, j);
    }
    ConsumersServedOverRuns(c, states, steps);
    ProducersServedOverRuns(c, states, steps);
  }
}
