/** What every run of the protocol keeps: exact waiter counters, capacity, and FIFO delivery. */
module ProtocolSafety {
  import opened Bytes
  import opened FifoSpec
  import opened Protocol
  import opened Sets

  lemma LogGrows(log: seq<Event>, events: seq<Event>)
    requires |events| <= 1
    ensures AcceptedMsgs(log + events)
         == AcceptedMsgs(log) + if events != [] && events[0].Accepted? then events[0].msgs else []
    ensures DeliveredMsgs(log + events)
         == DeliveredMsgs(log) + if events != [] && events[0].Delivered? then events[0].msgs else []
  {
    if events == [] {
      assert log + events == log;
    } else {
      assert (log + events)[..|log|] == log;
    }
  }

  /** The greedy prefix stays within the queue, so what is left still fits. */
  lemma HoldKeepsCapacity(c: Config, s: State, t: Tid, elapsed: nat)
    requires Runnable(s, t) && WithinCapacity(c, s.queue)
    ensures WithinCapacity(c, HoldOf(c, s, t, elapsed).queue)
  {
    var h := HoldOf(c, s, t, elapsed);
    if s.threads[t].call.Put? {
      FrameBytesConcat(s.queue, s.threads[t].call.msgs);
    } else if s.queue != [] {
      var k := GreedyLength(s.queue, s.threads[t].call.lim);
      assert s.queue == s.queue[..k] + s.queue[k..];
      FrameBytesConcat(s.queue[..k], s.queue[k..]);
    }
  }

  /** What a hold logs and what it leaves in the queue: a stored batch goes to the back, and
      delivered messages come from the front. */
  lemma HoldMovesMessages(c: Config, s: State, t: Tid, elapsed: nat)
    requires Runnable(s, t)
    ensures var h := HoldOf(c, s, t, elapsed);
            || (h.events == [] && h.queue == s.queue)
            || (exists m :: h.events == [Accepted(t, m)] && h.queue == s.queue + m)
            || (exists k: nat :: k <= |s.queue| && h.events == [Delivered(t, s.queue[..k])] && h.queue == s.queue[k..])
  {
    var h := HoldOf(c, s, t, elapsed);
    if s.threads[t].call.Get? {
      var outcome := GetEffectOf(s, t, elapsed).outcome;
      assert outcome.Finished? ==> outcome.taken <= |s.queue| && h.queue == s.queue[outcome.taken..];
    }
  }

  lemma HoldConservesMessages(c: Config, s: State, t: Tid, elapsed: nat)
    requires Runnable(s, t)
    requires DeliveredMsgs(s.log) + s.queue == AcceptedMsgs(s.log)
    ensures var h := HoldOf(c, s, t, elapsed);
            DeliveredMsgs(s.log + h.events) + h.queue == AcceptedMsgs(s.log + h.events)
  {
    var h := HoldOf(c, s, t, elapsed);
    LogGrows(s.log, h.events);
    HoldMovesMessages(c, s, t, elapsed);
    if m :| h.events == [Accepted(t, m)] && h.queue == s.queue + m {
      ConcatAssociates(DeliveredMsgs(s.log), s.queue, m);
    } else if k: nat :| k <= |s.queue| && h.events == [Delivered(t, s.queue[..k])] && h.queue == s.queue[k..] {
      SplitMoves(DeliveredMsgs(s.log), s.queue, k);
    }
  }

  lemma SplitMoves(done: seq<Message>, q: seq<Message>, k: nat)
    requires k <= |q|
    ensures (done + q[..k]) + q[k..] == done + q
  {
  }

  lemma MovesCount(blocked: set<Tid>, awake: set<Tid>, t: Tid, woken: set<Tid>, slept: set<Tid>)
    requires t !in blocked && slept <= {t}
    requires woken <= blocked && woken !! awake && t !in woken
    ensures |blocked - woken + slept| + |awake - {t} + woken|
         == |blocked| + |awake| - |awake * {t}| + |slept|
  {
    assert |blocked - woken| == |blocked| - |woken|;
    assert (awake - {t}) + awake * {t} == awake;
    assert |awake - {t} + woken| == |awake| - |awake * {t}| + |woken|;
  }

  lemma RunCounts(c: Config, s: State, step: Step, consumers: bool)
    requires Enabled(c, s, step) && step.Run?
    ensures |Blockeds(Apply(c, s, step).threads, consumers)| + |Awakes(Apply(c, s, step).threads, consumers)|
         == |Blockeds(s.threads, consumers)| + |Awakes(s.threads, consumers)|
            - |Awakes(s.threads, consumers) * {step.tid}| + |Slept(c, s, step, consumers)|
  {
    RunMovesThreads(c, s, step, consumers);
    MovesCount(Blockeds(s.threads, consumers), Awakes(s.threads, consumers), step.tid,
               Woken(c, s, step, consumers), Slept(c, s, step, consumers));
  }

  lemma RunKeepsCounters(c: Config, s: State, step: Step)
    requires Enabled(c, s, step) && step.Run? && CountersExact(s)
    ensures CountersExact(Apply(c, s, step))
  {
    RunCounts(c, s, step, true);
    RunCounts(c, s, step, false);
    forall consumers: bool ensures Awakes(s.threads, consumers) * {step.tid}
        == if step.tid in Awakes(s.threads, consumers) then {step.tid} else {} {
    }
  }

  /** A new call counts on neither side; a thread that leaves its sleep without having run still
      counts on its own. */
  lemma OtherStepCounts(c: Config, s: State, step: Step, consumers: bool)
    requires Enabled(c, s, step) && !step.Run?
    ensures |Blockeds(Apply(c, s, step).threads, consumers)| + |Awakes(Apply(c, s, step).threads, consumers)|
         == |Blockeds(s.threads, consumers)| + |Awakes(s.threads, consumers)|
  {
    var t, b, a := step.tid, Blockeds(s.threads, consumers), Awakes(s.threads, consumers);
    UpdateThread(s.threads, t, Apply(c, s, step).threads[t], consumers);
    WithoutOne(a, t);
    WithoutOne(b, t);
    assert t !in a;
    assert step.Start? ==> t !in b;
  }

  lemma StepKeepsCounters(c: Config, s: State, step: Step)
    requires Enabled(c, s, step) && CountersExact(s)
    ensures CountersExact(Apply(c, s, step))
  {
    if step.Run? {
      RunKeepsCounters(c, s, step);
    } else {
      OtherStepCounts(c, s, step, true);
      OtherStepCounts(c, s, step, false);
    }
  }

  lemma StepKeepsInvariant(c: Config, s: State, step: Step)
    requires Invariant(c, s) && Enabled(c, s, step)
    ensures Invariant(c, Apply(c, s, step))
  {
    StepKeepsCounters(c, s, step);
    if step.Run? {
      HoldKeepsCapacity(c, s, step.tid, step.elapsed);
      HoldConservesMessages(c, s, step.tid, step.elapsed);
    }
  }

  lemma {:induction false} RunKeepsInvariant(c: Config, states: seq<State>, steps: seq<Step>, i: nat)
    requires IsRun(c, states, steps) && i < |states|
    ensures Invariant(c, states[i])
  {
    if i > 0 {
      RunKeepsInvariant(c, states, steps, i - 1);
      StepKeepsInvariant(c, states[i - 1], steps[i - 1]);
    }
  }

  /** FIFO over every interleaving: what the gets delivered, in lock order, followed by what is
      in the queue, is what the puts stored, in lock order. */
  lemma FifoOverRuns(c: Config, states: seq<State>, steps: seq<Step>, i: nat)
    requires IsRun(c, states, steps) && i < |states|
    ensures DeliveredMsgs(states[i].log) + states[i].queue == AcceptedMsgs(states[i].log)
    ensures DeliveredMsgs(states[i].log) <= AcceptedMsgs(states[i].log)
    ensures WithinCapacity(c, states[i].queue)
  {
    RunKeepsInvariant(c, states, steps, i);
  }

  /** A stored batch comes out whole: its messages are neighbours in the delivery order. */
  lemma BatchStaysContiguous(c: Config, states: seq<State>, steps: seq<Step>, i: nat, k: nat)
    requires IsRun(c, states, steps) && i < |states|
    requires k < |states[i].log| && states[i].log[k].Accepted?
    ensures var at := |AcceptedMsgs(states[i].log[..k])|;
            var batch := states[i].log[k].msgs;
            var order := DeliveredMsgs(states[i].log) + states[i].queue;
            at + |batch| <= |order| && order[at..at + |batch|] == batch
  {
    RunKeepsInvariant(c, states, steps, i);
    var log := states[i].log;
    AcceptedPrefix(log, k + 1);
    assert log[..k + 1][..k] == log[..k];
  }

  lemma {:induction false} AcceptedPrefix(log: seq<Event>, k: nat)
    requires k <= |log|
    ensures AcceptedMsgs(log[..k]) <= AcceptedMsgs(log)
    decreases |log|
  {
    if k == |log| {
      assert log[..k] == log;
    } else {
      AcceptedPrefix(log[..|log| - 1], k);
      assert log[..|log| - 1][..k] == log[..k];
    }
  }

  // ---- Order of each single producer ----

  /** The producer of every stored message, in storing order. */
  function Owners(log: seq<Event>): (r: seq<Tid>)
    ensures |r| == |AcceptedMsgs(log)|
    decreases |log|
  {
    if log == [] then [] else
      var last := log[|log| - 1];
      Owners(log[..|log| - 1]) + if last.Accepted? then seq(|last.msgs|, i => last.tid) else []
  }

  /** The messages of `ms` that belong to `p`. */
  function OwnedBy(p: Tid, owners: seq<Tid>, ms: seq<Message>): seq<Message>
    requires |owners| == |ms|
    decreases |ms|
  {
    if ms == [] then [] else
      var n := |ms| - 1;
      OwnedBy(p, owners[..n], ms[..n]) + if owners[n] == p then [ms[n]] else []
  }

  /** What producer `p` stored, call by call. */
  function StoredBy(p: Tid, log: seq<Event>): seq<Message>
    decreases |log|
  {
    if log == [] then [] else
      var last := log[|log| - 1];
      StoredBy(p, log[..|log| - 1]) + if last.Accepted? && last.tid == p then last.msgs else []
  }

  lemma {:induction false} OwnedByBatch(p: Tid, q: Tid, owners: seq<Tid>, ms: seq<Message>, batch: seq<Message>)
    requires |owners| == |ms|
    ensures OwnedBy(p, owners + seq(|batch|, i => q), ms + batch)
         == OwnedBy(p, owners, ms) + if p == q then batch else []
    decreases |batch|
  {
    var tags := seq(|batch|, i => q);
    if batch == [] {
      assert owners + tags == owners && ms + batch == ms;
    } else {
      var n := |batch| - 1;
      OwnedByBatch(p, q, owners, ms, batch[..n]);
      assert (ms + batch)[..|ms| + n] == ms + batch[..n];
      assert (owners + tags)[..|ms| + n] == owners + seq(n, i => q);
      assert batch == batch[..n] + [batch[n]];
    }
  }

  lemma {:induction false} OwnedIsStored(p: Tid, log: seq<Event>)
    ensures OwnedBy(p, Owners(log), AcceptedMsgs(log)) == StoredBy(p, log)
    decreases |log|
  {
    if log != [] {
      var last := log[|log| - 1];
      OwnedIsStored(p, log[..|log| - 1]);
      if last.Accepted? {
        OwnedByBatch(p, last.tid, Owners(log[..|log| - 1]), AcceptedMsgs(log[..|log| - 1]), last.msgs);
      } else {
        assert Owners(log) == Owners(log[..|log| - 1]);
        assert AcceptedMsgs(log) == AcceptedMsgs(log[..|log| - 1]);
      }
    }
  }

  /** Seen from one producer, messages come out in exactly the order it put them. */
  lemma ProducerOrderKept(c: Config, states: seq<State>, steps: seq<Step>, i: nat, p: Tid)
    requires IsRun(c, states, steps) && i < |states|
    ensures |Owners(states[i].log)| == |DeliveredMsgs(states[i].log) + states[i].queue|
    ensures OwnedBy(p, Owners(states[i].log), DeliveredMsgs(states[i].log) + states[i].queue)
         == StoredBy(p, states[i].log)
  {
    RunKeepsInvariant(c, states, steps, i);
    OwnedIsStored(p, states[i].log);
  }
}
