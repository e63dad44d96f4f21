/** Any number of threads calling `queue_put` and `queue_get` on one queue.  The mutex makes
    every stretch between two sleeps one step; `pthread_cond_timedwait` splits a call in two.
    A thread asleep on a condition variable is `Blocked`; once it is signalled, times out or
    wakes spuriously it is `Awake`, and it runs at a later step. */
module Protocol {
  import opened FifoSpec

  type Tid = nat

  datatype Call =
    | Put(msgs: seq<Message>, block: bool)
    | Get(lim: Limits, block: bool)

  // `remaining` is the time left for waiting, in microseconds.
  datatype Thread =
    | Idle
    | Fresh(call: Call, remaining: int)
    | Blocked(call: Call, remaining: int)
    | Awake(call: Call, remaining: int)

  datatype Event =
    | Accepted(tid: Tid, msgs: seq<Message>)
    | Delivered(tid: Tid, msgs: seq<Message>)

  datatype State = State(
    queue: seq<Message>,
    notEmpty: int,  // not_empty_n_waiters
    notFull: int,   // not_full_n_waiters
    threads: map<Tid, Thread>,
    log: seq<Event>)

  datatype Step =
    | Start(tid: Tid, call: Call, timeout: nat)
    | Run(tid: Tid, elapsed: nat, woken: Tid)
    | Unblock(tid: Tid)  // a timeout or a spurious wake-up

  // ---- Who waits where ----

  function Blockeds(ts: map<Tid, Thread>, consumers: bool): set<Tid> {
    set t | t in ts && ts[t].Blocked? && ts[t].call.Get? == consumers
  }

  function Awakes(ts: map<Tid, Thread>, consumers: bool): set<Tid> {
    set t | t in ts && ts[t].Awake? && ts[t].call.Get? == consumers
  }

  lemma UpdateThread(ts: map<Tid, Thread>, t: Tid, th: Thread, consumers: bool)
    ensures Blockeds(ts[t := th], consumers)
         == if th.Blocked? && th.call.Get? == consumers then Blockeds(ts, consumers) + {t}
            else Blockeds(ts, consumers) - {t}
    ensures Awakes(ts[t := th], consumers)
         == if th.Awake? && th.call.Get? == consumers then Awakes(ts, consumers) + {t}
            else Awakes(ts, consumers) - {t}
  {
  }

  // ---- Steps ----

  /** Signalling wakes one thread asleep on that side, if there is one. */
  function AfterSignal(ts: map<Tid, Thread>, signal: Signal, woken: Tid): map<Tid, Thread>
    requires SignalFindsThread(ts, signal, woken)
  {
    if signal == NoSignal || Blockeds(ts, signal == WakeConsumer) == {} then ts
    else ts[woken := Awake(ts[woken].call, ts[woken].remaining)]
  }

  predicate SignalFindsThread(ts: map<Tid, Thread>, signal: Signal, woken: Tid) {
    var sleepers := Blockeds(ts, signal == WakeConsumer);
    signal != NoSignal && sleepers != {} ==> woken in sleepers
  }

  predicate Runnable(s: State, t: Tid) {
    t in s.threads && (s.threads[t].Fresh? || s.threads[t].Awake?)
  }

  /** The time a running thread has left, and whether it may still wait. */
  function TimeLeft(s: State, t: Tid, elapsed: nat): int
    requires Runnable(s, t)
  {
    s.threads[t].remaining - if s.threads[t].Awake? then elapsed else 0
  }

  predicate MayWait(s: State, t: Tid, elapsed: nat)
    requires Runnable(s, t)
  {
    s.threads[t].call.block && TimeLeft(s, t, elapsed) > 0
  }

  /** The waiter counters once the running thread has left its own wait. */
  function NotEmptyAt(s: State, t: Tid): int
    requires Runnable(s, t)
  {
    s.notEmpty - if s.threads[t].Awake? && s.threads[t].call.Get? then 1 else 0
  }

  function NotFullAt(s: State, t: Tid): int
    requires Runnable(s, t)
  {
    s.notFull - if s.threads[t].Awake? && s.threads[t].call.Put? then 1 else 0
  }

  function PutEffectOf(c: Config, s: State, t: Tid, elapsed: nat): PutEffect
    requires Runnable(s, t) && s.threads[t].call.Put?
  {
    PutHold(c, s.queue, NotEmptyAt(s, t), NotFullAt(s, t), s.threads[t].call.msgs, MayWait(s, t, elapsed))
  }

  function GetEffectOf(s: State, t: Tid, elapsed: nat): GetEffect
    requires Runnable(s, t) && s.threads[t].call.Get?
  {
    GetHold(s.queue, NotEmptyAt(s, t), NotFullAt(s, t), s.threads[t].call.lim, MayWait(s, t, elapsed))
  }

  /** What a run step decides: does the caller sleep, whom does it signal, what is logged. */
  datatype Hold = Hold(sleeps: bool, queue: seq<Message>, signal: Signal, events: seq<Event>)

  function HoldOf(c: Config, s: State, t: Tid, elapsed: nat): Hold
    requires Runnable(s, t)
  {
    if s.threads[t].call.Put? then
      var e := PutEffectOf(c, s, t, elapsed);
      Hold(e.outcome.PutSleep?, e.queue, e.signal,
           if e.outcome.Stored? then [Accepted(t, s.threads[t].call.msgs)] else [])
    else
      var e := GetEffectOf(s, t, elapsed);
      Hold(e.outcome.GetSleep?, e.queue, e.signal,
           if e.outcome.Finished? then [Delivered(t, s.queue[..e.outcome.taken])] else [])
  }

  predicate Enabled(c: Config, s: State, step: Step) {
    match step
    case Start(t, _, _) => t in s.threads ==> s.threads[t].Idle?
    case Run(t, elapsed, woken) =>
      Runnable(s, t) && SignalFindsThread(s.threads, HoldOf(c, s, t, elapsed).signal, woken)
    case Unblock(t) => t in s.threads && s.threads[t].Blocked?
  }

  function Apply(c: Config, s: State, step: Step): State
    requires Enabled(c, s, step)
  {
    match step
    case Start(t, call, timeout) => s.(threads := s.threads[t := Fresh(call, timeout)])
    case Unblock(t) =>
      s.(threads := s.threads[t := Awake(s.threads[t].call, s.threads[t].remaining)])
    case Run(t, elapsed, woken) =>
      var h := HoldOf(c, s, t, elapsed);
      var call := s.threads[t].call;
      var others := AfterSignal(s.threads, h.signal, woken);
      State(h.queue,
            NotEmptyAt(s, t) + (if h.sleeps && call.Get? then 1 else 0),
            NotFullAt(s, t) + (if h.sleeps && call.Put? then 1 else 0),
            others[t := if h.sleeps then Blocked(call, TimeLeft(s, t, elapsed)) else Idle],
            s.log + h.events)
  }

  const INITIAL: State := State([], 0, 0, map[], [])

  /** A run: the states passed through and the steps between them. */
  ghost predicate IsRun(c: Config, states: seq<State>, steps: seq<Step>) {
    && |states| == |steps| + 1
    && states[0] == INITIAL
    && forall i | 0 <= i < |steps| ::
         Enabled(c, states[i], steps[i]) && states[i + 1] == Apply(c, states[i], steps[i])
  }

  // ---- What every step keeps ----

  function AcceptedMsgs(log: seq<Event>): seq<Message>
    decreases |log|
  {
    if log == [] then [] else
      var last := log[|log| - 1];
      AcceptedMsgs(log[..|log| - 1]) + if last.Accepted? then last.msgs else []
  }

  function DeliveredMsgs(log: seq<Event>): seq<Message>
    decreases |log|
  {
    if log == [] then [] else
      var last := log[|log| - 1];
      DeliveredMsgs(log[..|log| - 1]) + if last.Delivered? then last.msgs else []
  }

  ghost predicate CountersExact(s: State) {
    && s.notEmpty == |Blockeds(s.threads, true)| + |Awakes(s.threads, true)|
    && s.notFull == |Blockeds(s.threads, false)| + |Awakes(s.threads, false)|
  }

  /** An empty request always fits, so whoever waits to put has something to put. */
  ghost predicate WaitersHaveMessages(s: State) {
    forall t | t in s.threads && (s.threads[t].Blocked? || s.threads[t].Awake?) && s.threads[t].call.Put? ::
      s.threads[t].call.msgs != []
  }

  ghost predicate Invariant(c: Config, s: State) {
    && WithinCapacity(c, s.queue)
    && DeliveredMsgs(s.log) + s.queue == AcceptedMsgs(s.log)
    && CountersExact(s)
    && WaitersHaveMessages(s)
  }

  /** The thread, if any, that a run step's signal moves from asleep to awake on one side. */
  function Woken(c: Config, s: State, step: Step, consumers: bool): set<Tid>
    requires Enabled(c, s, step) && step.Run?
  {
    var signal := HoldOf(c, s, step.tid, step.elapsed).signal;
    if signal != NoSignal && (signal == WakeConsumer) == consumers && Blockeds(s.threads, consumers) != {}
    then {step.woken} else {}
  }

  /** The running thread, if it goes to sleep on that side. */
  function Slept(c: Config, s: State, step: Step, consumers: bool): set<Tid>
    requires Enabled(c, s, step) && step.Run?
  {
    if HoldOf(c, s, step.tid, step.elapsed).sleeps && s.threads[step.tid].call.Get? == consumers
    then {step.tid} else {}
  }

  lemma RunMovesThreads(c: Config, s: State, step: Step, consumers: bool)
    requires Enabled(c, s, step) && step.Run?
    ensures Woken(c, s, step, consumers) <= Blockeds(s.threads, consumers)
    ensures Blockeds(Apply(c, s, step).threads, consumers)
         == Blockeds(s.threads, consumers) - Woken(c, s, step, consumers) + Slept(c, s, step, consumers)
    ensures Awakes(Apply(c, s, step).threads, consumers)
         == Awakes(s.threads, consumers) - {step.tid} + Woken(c, s, step, consumers)
  {
    var t := step.tid;
    var others := AfterSignal(s.threads, HoldOf(c, s, t, step.elapsed).signal, step.woken);
    if others != s.threads {
      UpdateThread(s.threads, step.woken, others[step.woken], consumers);
    }
    UpdateThread(others, t, Apply(c, s, step).threads[t], consumers);
  }
}
