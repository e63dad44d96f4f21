/** No thread is ever stuck while it may run, and wake-ups die out: once no new call starts and
    nobody wakes without a signal, a bounded number of lock holds leaves nothing to run. */
module ProtocolProgress {
  import opened FifoSpec
  import opened Protocol
  import opened ProtocolSafety
  import opened ProtocolWakeups
  import opened Sets

  function Freshs(ts: map<Tid, Thread>): set<Tid> {
    set t | t in ts && ts[t].Fresh?
  }

  function Unfinished(ts: map<Tid, Thread>): set<Tid> {
    set t | t in ts && !ts[t].Idle?
  }

  /** A thread ready to run has three lock holds' worth of energy, a sleeping consumer two and a
      sleeping producer one: what waking it costs the waker is never more than the waker has. */
  function Energy(ts: map<Tid, Thread>): nat {
    3 * |Freshs(ts)| + 3 * |Awakes(ts, true)| + 3 * |Awakes(ts, false)|
    + 2 * |Blockeds(ts, true)| + |Blockeds(ts, false)|
  }

  function Awakened(ts: map<Tid, Thread>): set<Tid> {
    set t | t in ts && ts[t].Awake?
  }

  function Asleep(ts: map<Tid, Thread>): set<Tid> {
    set t | t in ts && ts[t].Blocked?
  }

  lemma AwakenedSides(ts: map<Tid, Thread>)
    ensures |Awakened(ts)| == |Awakes(ts, true)| + |Awakes(ts, false)|
  {
    assert Awakened(ts) == Awakes(ts, true) + Awakes(ts, false);
    UnionSize(Awakes(ts, true), Awakes(ts, false));
  }

  lemma AsleepSides(ts: map<Tid, Thread>)
    ensures |Asleep(ts)| == |Blockeds(ts, true)| + |Blockeds(ts, false)|
  {
    assert Asleep(ts) == Blockeds(ts, true) + Blockeds(ts, false);
    UnionSize(Blockeds(ts, true), Blockeds(ts, false));
  }

  lemma UnfinishedSize(ts: map<Tid, Thread>)
    ensures |Unfinished(ts)| == |Freshs(ts)| + |Awakened(ts)| + |Asleep(ts)|
  {
    assert Unfinished(ts) == Freshs(ts) + Awakened(ts) + Asleep(ts);
    UnionSize(Freshs(ts), Awakened(ts));
    UnionSize(Freshs(ts) + Awakened(ts), Asleep(ts));
  }

  lemma EnergyBound(ts: map<Tid, Thread>)
    ensures Energy(ts) <= 3 * |Unfinished(ts)|
  {
    UnfinishedSize(ts);
    AwakenedSides(ts);
    AsleepSides(ts);
  }

  lemma FreshMoves(c: Config, s: State, step: Step)
    requires Enabled(c, s, step) && step.Run?
    ensures Freshs(Apply(c, s, step).threads) == Freshs(s.threads) - {step.tid}
  {
  }

  /** One side's part of the energy after a run step. */
  lemma SideMoves(c: Config, s: State, step: Step, consumers: bool)
    requires Enabled(c, s, step) && step.Run?
    ensures |Blockeds(Apply(c, s, step).threads, consumers)|
         == |Blockeds(s.threads, consumers)| - |Woken(c, s, step, consumers)| + |Slept(c, s, step, consumers)|
    ensures |Awakes(Apply(c, s, step).threads, consumers)|
         == |Awakes(s.threads, consumers) - {step.tid}| + |Woken(c, s, step, consumers)|
  {
    RunMovesThreads(c, s, step, consumers);
    var b, w := Blockeds(s.threads, consumers), Woken(c, s, step, consumers);
    assert |b - w| == |b| - |w|;
  }

  /** A hold wakes at most one thread, and a consumer that goes to sleep wakes nobody. */
  lemma HandsOnAtMostTwo(c: Config, s: State, step: Step)
    requires Enabled(c, s, step) && step.Run?
    ensures |Woken(c, s, step, true)| + 2 * |Slept(c, s, step, true)|
          + 2 * |Woken(c, s, step, false)| + |Slept(c, s, step, false)| <= 2
  {
  }

  /** Every lock hold spends energy, although it may hand some to the thread it signals. */
  lemma RunSpendsEnergy(c: Config, s: State, step: Step)
    requires Enabled(c, s, step) && step.Run?
    ensures Energy(Apply(c, s, step).threads) < Energy(s.threads)
  {
    FreshMoves(c, s, step);
    SideMoves(c, s, step, true);
    SideMoves(c, s, step, false);
    LeavesOnce(s, step.tid);
    HandsOnAtMostTwo(c, s, step);
  }

  lemma LeavesOnce(s: State, t: Tid)
    requires Runnable(s, t)
    ensures |Freshs(s.threads) - {t}| + |Awakes(s.threads, true) - {t}| + |Awakes(s.threads, false) - {t}| + 1
         == |Freshs(s.threads)| + |Awakes(s.threads, true)| + |Awakes(s.threads, false)|
  {
    WithoutOne(Freshs(s.threads), t);
    WithoutOne(Awakes(s.threads, true), t);
    WithoutOne(Awakes(s.threads, false), t);
  }

  /** Wake-ups die out: between new calls, timeouts and spurious wake-ups, at most three lock
      holds happen per unfinished call. */
  lemma {:induction false} WakeUpsDieOut(c: Config, states: seq<State>, steps: seq<Step>, i: nat, j: nat)
    requires IsRun(c, states, steps) && i <= j <= |steps|
    requires forall k | i <= k < j :: steps[k].Run?
    ensures j - i + Energy(states[j].threads) <= Energy(states[i].threads) <= 3 * |Unfinished(states[i].threads)|
    decreases j
  {
    EnergyBound(states[i].threads);
    if i < j {
      WakeUpsDieOut(c, states, steps, i, j - 1);
      RunSpendsEnergy(c, states[j - 1], steps[j - 1]);
    }
  }

  /** A thread that may run can always run, whatever the clock says. */
  lemma RunnableCanRun(c: Config, s: State, t: Tid, elapsed: nat) returns (step: Step)
    requires Runnable(s, t)
    ensures step.Run? && step.tid == t && step.elapsed == elapsed && Enabled(c, s, step)
  {
    var signal := HoldOf(c, s, t, elapsed).signal;
    var sleepers := Blockeds(s.threads, signal == WakeConsumer);
    if signal != NoSignal && sleepers != {} {
      var woken :| woken in sleepers;
      step := Run(t, elapsed, woken);
    } else {
      step := Run(t, elapsed, 0);
    }
  }

  /** Every reachable state can be run to rest in at most three lock holds per unfinished call. */
  lemma {:induction false} RunsToRest(c: Config, states: seq<State>, steps: seq<Step>)
    returns (states': seq<State>, steps': seq<Step>)
    requires IsRun(c, states, steps)
    ensures IsRun(c, states', steps') && steps <= steps'
    ensures forall k | |steps| <= k < |steps'| :: steps'[k].Run?
    ensures |steps'| - |steps| <= 3 * |Unfinished(states[|steps|].threads)|
    ensures forall t | t in states'[|steps'|].threads :: !Runnable(states'[|steps'|], t)
    decreases Energy(states[|steps|].threads)
  {
    var s := states[|steps|];
    if t :| t in s.threads && Runnable(s, t) {
      var step := RunnableCanRun(c, s, t, 0);
      RunSpendsEnergy(c, s, step);
      states', steps' := RunsToRest(c, states + [Apply(c, s, step)], steps + [step]);
      RunPrefix(c, states, steps, step, states', steps');
      WakeUpsDieOut(c, states', steps', |steps|, |steps'|);
    } else {
      states', steps' := states, steps;
    }
  }

  lemma {:induction false} SameSteps(c: Config, states: seq<State>, steps: seq<Step>,
                                     states': seq<State>, steps': seq<Step>, i: nat)
    requires IsRun(c, states, steps) && IsRun(c, states', steps') && steps <= steps' && i <= |steps|
    ensures states'[i] == states[i]
  {
    if i > 0 {
      SameSteps(c, states, steps, states', steps', i - 1);
      assert steps'[i - 1] == steps[i - 1];
    }
  }

  lemma RunPrefix(c: Config, states: seq<State>, steps: seq<Step>, step: Step,
                  states': seq<State>, steps': seq<Step>)
    requires IsRun(c, states, steps) && IsRun(c, states', steps')
    requires steps + [step] <= steps' && step.Run?
    requires forall k | |steps| + 1 <= k < |steps'| :: steps'[k].Run?
    ensures steps <= steps' && states'[|steps|] == states[|steps|]
    ensures forall k | |steps| <= k < |steps'| :: steps'[k].Run?
  {
    assert steps == steps'[..|steps|] && steps'[|steps|] == step;
    SameSteps(c, states, steps, states', steps', |steps|);
  }
}
