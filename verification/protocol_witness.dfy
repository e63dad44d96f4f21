/** The exceptions to the wake-up guarantees are real: short runs that reach them, in which every
    request would fit an empty queue. */
module ProtocolWitness {
  import opened Bytes
  import opened FifoSpec
  import opened Protocol
  import opened ProtocolWakeups
  import opened ProtocolFitters

  // A queue of two messages, and one of seventeen bytes.
  const TWO: Config := Config(100, 2)
  const SEVENTEEN: Config := Config(17, 10)

  const MSG: Message := [7]
  const EMPTY: Message := []
  const TAKE_TWO: Limits := Limits(100, 2, 100)
  const TAKE_ONE: Limits := Limits(100, 1, 100)

  const PUT_TWO: Call := Put([MSG, MSG], false)
  const PUT_TWO_WAITING: Call := Put([MSG, MSG], true)
  const PUT_ONE_WAITING: Call := Put([MSG], true)
  const PUT_EMPTY_WAITING: Call := Put([EMPTY], true)
  const PUT_MIXED: Call := Put([MSG, EMPTY], false)
  const GET_TWO: Call := Get(TAKE_TWO, false)
  const GET_ONE: Call := Get(TAKE_ONE, false)
  const GET_ONE_WAITING: Call := Get(TAKE_ONE, true)

  // ---- Building runs ----

  ghost predicate ReachesWith(c: Config, states: seq<State>, steps: seq<Step>, s: State) {
    && IsRun(c, states, steps)
    && states[|steps|] == s
    && (forall i | 0 <= i < |steps| && steps[i].Start? :: FitsEmptyQueue(c, steps[i].call))
  }

  ghost predicate Reaches(c: Config, s: State) {
    exists states, steps :: ReachesWith(c, states, steps, s)
  }

  /** `s` is reached, with these contents, waiter counters and threads. */
  ghost predicate ReachesAt(c: Config, s: State, queue: seq<Message>, notEmpty: int, notFull: int,
                            threads: map<Tid, Thread>)
  {
    Reaches(c, s) && s.queue == queue && s.notEmpty == notEmpty && s.notFull == notFull && s.threads == threads
  }

  lemma StepFurther(c: Config, s: State, step: Step)
    requires Reaches(c, s) && Enabled(c, s, step)
    requires step.Start? ==> FitsEmptyQueue(c, step.call)
    ensures Reaches(c, Apply(c, s, step))
  {
    var states, steps :| ReachesWith(c, states, steps, s);
    assert ReachesWith(c, states + [Apply(c, s, step)], steps + [step], Apply(c, s, step));
  }

  /** A new call and its first lock hold. */
  lemma CallAndRun(c: Config, s: State, t: Tid, call: Call, timeout: nat, woken: Tid) returns (s': State)
    requires Reaches(c, s) && (t in s.threads ==> s.threads[t].Idle?) && FitsEmptyQueue(c, call)
    requires var started := Apply(c, s, Start(t, call, timeout));
             SignalFindsThread(started.threads, HoldOf(c, started, t, 0).signal, woken)
    ensures Reaches(c, s') && s' == Apply(c, Apply(c, s, Start(t, call, timeout)), Run(t, 0, woken))
  {
    StepFurther(c, s, Start(t, call, timeout));
    StepFurther(c, Apply(c, s, Start(t, call, timeout)), Run(t, 0, woken));
    s' := Apply(c, Apply(c, s, Start(t, call, timeout)), Run(t, 0, woken));
  }

  lemma FrameSizes()
    ensures FrameBytes([MSG]) == 9 && FrameBytes([MSG, MSG]) == 18
    ensures FrameBytes([EMPTY]) == 8 && FrameBytes([MSG, EMPTY]) == 17
  {
    assert [MSG][1..] == [] && [EMPTY][1..] == [];
    assert [MSG, MSG][1..] == [MSG] && [MSG, EMPTY][1..] == [EMPTY];
  }

  /** What a get takes from a queue of two messages. */
  lemma TakesUpTo(q: seq<Message>, lim: Limits, k: nat)
    requires |q| == 2 && FrameBytes(q) <= 18
    requires lim == if k == 1 then TAKE_ONE else TAKE_TWO
    requires 1 <= k <= 2
    ensures GreedyLength(q, lim) == k
  {
    assert q[..0] == [] && q[..1] + q[1..] == q && q[..2] == q;
    FrameBytesConcat(q[..1], q[1..]);
    assert Wanted(q, lim, 0) && Fits(q, lim, 1) && Fits(q, lim, 2);
    assert Wanted(q, lim, 1) <==> k == 2;
    assert IsGreedyPrefix(q, lim, k);
    GreedyIsExact(q, lim, k);
  }

  // ---- A stranded consumer ----

  lemma QueueFull() returns (s: State)
    ensures ReachesAt(TWO, s, [MSG, MSG], 0, 0, map[0 := Idle])
  {
    FrameSizes();
    assert ReachesWith(TWO, [INITIAL], [], INITIAL);
    s := CallAndRun(TWO, INITIAL, 0, PUT_TWO, 0, 0);
  }

  /** A producer waits on the full queue. */
  lemma ProducerWaits() returns (s: State)
    ensures ReachesAt(TWO, s, [MSG, MSG], 0, 1, map[0 := Idle, 1 := Blocked(PUT_TWO_WAITING, 5)])
  {
    FrameSizes();
    s := QueueFull();
    s := CallAndRun(TWO, s, 1, PUT_TWO_WAITING, 5, 0);
  }

  /** A consumer takes everything and wakes it. */
  lemma ProducerWoken() returns (s: State)
    ensures ReachesAt(TWO, s, [], 0, 1, map[0 := Idle, 1 := Awake(PUT_TWO_WAITING, 5), 2 := Idle])
  {
    FrameSizes();
    TakesUpTo([MSG, MSG], TAKE_TWO, 2);
    s := ProducerWaits();
    assert Blockeds(s.threads[2 := Fresh(GET_TWO, 0)], false) == {1};
    s := CallAndRun(TWO, s, 2, GET_TWO, 0, 1);
  }

  lemma ConsumerAsleep() returns (s: State)
    ensures ReachesAt(TWO, s, [], 1, 1, map[0 := Idle, 1 := Awake(PUT_TWO_WAITING, 5), 2 := Idle,
                                            3 := Blocked(GET_ONE_WAITING, 5)])
  {
    s := ProducerWoken();
    s := CallAndRun(TWO, s, 3, GET_ONE_WAITING, 5, 0);
  }

  /** Before it runs, two consumers fall asleep. */
  lemma ConsumersAsleep() returns (s: State)
    ensures ReachesAt(TWO, s, [], 2, 1, map[0 := Idle, 1 := Awake(PUT_TWO_WAITING, 5), 2 := Idle,
                                            3 := Blocked(GET_ONE_WAITING, 5), 4 := Blocked(GET_ONE_WAITING, 5)])
  {
    s := ConsumerAsleep();
    s := CallAndRun(TWO, s, 4, GET_ONE_WAITING, 5, 0);
  }

  /** A put of two messages wakes one of them. */
  lemma ConsumerWoken() returns (s: State)
    ensures ReachesAt(TWO, s, [MSG, MSG], 2, 1, map[0 := Idle, 1 := Awake(PUT_TWO_WAITING, 5), 2 := Idle,
                                                    3 := Awake(GET_ONE_WAITING, 5), 4 := Blocked(GET_ONE_WAITING, 5)])
  {
    FrameSizes();
    s := ConsumersAsleep();
    assert Blockeds(s.threads[0 := Fresh(PUT_TWO, 0)], true) == {3, 4};
    s := CallAndRun(TWO, s, 0, PUT_TWO, 0, 3);
  }

  /** That consumer takes one message and hands its wake-up to the producer side, where nobody
      sleeps. */
  lemma WakeUpHandedOver() returns (s: State)
    ensures ReachesAt(TWO, s, [MSG], 1, 1, map[0 := Idle, 1 := Awake(PUT_TWO_WAITING, 5), 2 := Idle,
                                               3 := Idle, 4 := Blocked(GET_ONE_WAITING, 5)])
  {
    TakesUpTo([MSG, MSG], TAKE_ONE, 1) by { FrameSizes(); }
    s := ConsumerWoken();
    assert Blockeds(s.threads, false) == {};
    StepFurther(TWO, s, Run(3, 0, 0));
    s := Apply(TWO, s, Run(3, 0, 0));
  }

  /** The producer, still too large for the queue, runs out of time: the other consumer now sleeps
      beside a message with nobody left to wake it. */
  lemma StrandedConsumerIsReachable() returns (s: State)
    ensures Reaches(TWO, s)
    ensures !ConsumersServed(s)
    ensures s.queue == [MSG] && Blockeds(s.threads, true) == {4}
    ensures Awakes(s.threads, true) == Awakes(s.threads, false) == {}
  {
    FrameSizes();
    s := WakeUpHandedOver();
    StepFurther(TWO, s, Run(1, 5, 0));
    s := Apply(TWO, s, Run(1, 5, 0));
    assert s.threads == map[0 := Idle, 1 := Idle, 2 := Idle, 3 := Idle, 4 := Blocked(GET_ONE_WAITING, 5)];
    assert 4 in Blockeds(s.threads, true);
  }

  // ---- A fitting producer asleep ----

  lemma TwoProducersWait() returns (s: State)
    ensures ReachesAt(TWO, s, [MSG, MSG], 0, 2, map[0 := Idle, 1 := Blocked(PUT_TWO_WAITING, 5),
                                                    2 := Blocked(PUT_ONE_WAITING, 5)])
  {
    FrameSizes();
    s := ProducerWaits();
    s := CallAndRun(TWO, s, 2, PUT_ONE_WAITING, 5, 0);
  }

  lemma LargerOneWoken() returns (s: State)
    ensures ReachesAt(TWO, s, [MSG], 0, 2, map[0 := Idle, 1 := Awake(PUT_TWO_WAITING, 5),
                                               2 := Blocked(PUT_ONE_WAITING, 5), 3 := Idle])
  {
    TakesUpTo([MSG, MSG], TAKE_ONE, 1) by { FrameSizes(); }
    s := TwoProducersWait();
    assert Blockeds(s.threads[3 := Fresh(GET_ONE, 0)], false) == {1, 2};
    s := CallAndRun(TWO, s, 3, GET_ONE, 0, 1);
  }

  /** A get frees one place and wakes the producer that needs two; it goes back to sleep without
      passing the wake-up on, and the producer that needs one sleeps on beside a free place. */
  lemma FittingProducerCanSleepOn() returns (s: State)
    ensures Reaches(TWO, s)
    ensures !FittersServed(TWO, s)
    ensures Awakes(s.threads, true) == Awakes(s.threads, false) == {}
  {
    FrameSizes();
    s := LargerOneWoken();
    StepFurther(TWO, s, Run(1, 0, 0));
    s := Apply(TWO, s, Run(1, 0, 0));
    assert s.threads == map[0 := Idle, 1 := Blocked(PUT_TWO_WAITING, 5), 2 := Blocked(PUT_ONE_WAITING, 5), 3 := Idle];
    assert 2 in Blockeds(s.threads, false) && RequestFits(TWO, s.queue, PUT_ONE_WAITING);
  }

  // ---- An empty message overlooked ----

  lemma BytesFull() returns (s: State)
    ensures ReachesAt(SEVENTEEN, s, [MSG, EMPTY], 0, 0, map[0 := Idle])
  {
    FrameSizes();
    assert ReachesWith(SEVENTEEN, [INITIAL], [], INITIAL);
    s := CallAndRun(SEVENTEEN, INITIAL, 0, PUT_MIXED, 0, 0);
  }

  lemma MessageWaits() returns (s: State)
    ensures ReachesAt(SEVENTEEN, s, [MSG, EMPTY], 0, 1, map[0 := Idle, 1 := Blocked(PUT_ONE_WAITING, 5)])
  {
    FrameSizes();
    s := BytesFull();
    s := CallAndRun(SEVENTEEN, s, 1, PUT_ONE_WAITING, 5, 0);
  }

  lemma EmptyMessageWaits() returns (s: State)
    ensures ReachesAt(SEVENTEEN, s, [MSG, EMPTY], 0, 2, map[0 := Idle, 1 := Blocked(PUT_ONE_WAITING, 5),
                                                            2 := Blocked(PUT_EMPTY_WAITING, 5)])
  {
    FrameSizes();
    s := MessageWaits();
    s := CallAndRun(SEVENTEEN, s, 2, PUT_EMPTY_WAITING, 5, 0);
  }

  lemma MessageWoken() returns (s: State)
    ensures ReachesAt(SEVENTEEN, s, [], 0, 2, map[0 := Idle, 1 := Awake(PUT_ONE_WAITING, 5),
                                                  2 := Blocked(PUT_EMPTY_WAITING, 5), 3 := Idle])
  {
    TakesUpTo([MSG, EMPTY], TAKE_TWO, 2) by { FrameSizes(); }
    s := EmptyMessageWaits();
    assert Blockeds(s.threads[3 := Fresh(GET_TWO, 0)], false) == {1, 2};
    s := CallAndRun(SEVENTEEN, s, 3, GET_TWO, 0, 1);
  }

  /** A get empties the queue and wakes one of two producers, which stores nine bytes of seventeen.
      The eight that are left would hold the other one's empty message, but the test before passing
      the wake-up on asks for nine. */
  lemma EmptyMessageIsOverlooked() returns (s: State)
    ensures Reaches(SEVENTEEN, s)
    ensures !FittersServed(SEVENTEEN, s)
    ensures Awakes(s.threads, true) == Awakes(s.threads, false) == {}
  {
    FrameSizes();
    s := MessageWoken();
    StepFurther(SEVENTEEN, s, Run(1, 0, 0));
    s := Apply(SEVENTEEN, s, Run(1, 0, 0));
    assert s.queue == [MSG];
    assert s.threads == map[0 := Idle, 1 := Idle, 2 := Blocked(PUT_EMPTY_WAITING, 5), 3 := Idle];
    assert 2 in Blockeds(s.threads, false) && RequestFits(SEVENTEEN, s.queue, PUT_EMPTY_WAITING);
  }

  // ---- A stranded producer ----

  /** A request that no empty queue can hold falls asleep on one. */
  lemma StrandedProducerIsReachable(c: Config, msgs: seq<Message>)
    returns (states: seq<State>, steps: seq<Step>)
    requires !CanFit(c, [], FrameBytes(msgs), |msgs|)
    ensures IsRun(c, states, steps)
    ensures !ProducersServed(states[|steps|])
  {
    var call := Put(msgs, true);
    var s1 := Apply(c, INITIAL, Start(0, call, 1));
    var s2 := Apply(c, s1, Run(0, 0, 0));
    states, steps := [INITIAL, s1, s2], [Start(0, call, 1), Run(0, 0, 0)];
    assert 0 in Blockeds(s2.threads, false);
  }
}
