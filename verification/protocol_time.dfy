/** What one lock hold decides, said without the functions the steps are built from, and the time
    a call spends waiting: only a blocking call waits, and never once its timeout is used up. */
module ProtocolTime {
  import opened FifoSpec
  import opened Protocol
  import opened ProtocolProgress

  // ---- One lock hold ----

  /** A put without room, or a get without a message. */
  ghost predicate Stuck(c: Config, q: seq<Message>, call: Call) {
    match call
    case Put(msgs, _) => !Room(c, q, msgs)
    case Get(_, _) => q == []
  }

  /** A call that gets the lock waits exactly if it is stuck, may block and has time left; in every
      other case it returns. */
  lemma StuckCallsWait(c: Config, s: State, step: Step)
    requires Enabled(c, s, step) && step.Run?
    ensures var th := s.threads[step.tid];
            var left := th.remaining - if th.Awake? then step.elapsed else 0;
            Apply(c, s, step).threads[step.tid]
              == if Stuck(c, s.queue, th.call) && th.call.block && left > 0 then Blocked(th.call, left) else Idle
  {
    var call := s.threads[step.tid].call;
    if call.Put? {
      CanFitIsRoom(c, s.queue, call.msgs);
    }
  }

  /** A put with room stores its whole batch at the back; without room it changes nothing. */
  lemma PutStoresAllOrNothing(c: Config, s: State, step: Step)
    requires Enabled(c, s, step) && step.Run? && s.threads[step.tid].call.Put?
    ensures var s', msgs := Apply(c, s, step), s.threads[step.tid].call.msgs;
            if Room(c, s.queue, msgs) then s'.queue == s.queue + msgs && s'.log == s.log + [Accepted(step.tid, msgs)]
            else s'.queue == s.queue && s'.log == s.log
  {
    CanFitIsRoom(c, s.queue, s.threads[step.tid].call.msgs);
  }

  /** A get that meets messages takes them from the front up to where its limits stop it. */
  lemma GetTakesWhatItMay(c: Config, s: State, step: Step) returns (k: nat)
    requires Enabled(c, s, step) && step.Run? && s.threads[step.tid].call.Get? && s.queue != []
    ensures StopsAt(s.queue, s.threads[step.tid].call.lim, k)
    ensures Apply(c, s, step).queue == s.queue[k..]
    ensures Apply(c, s, step).log == s.log + [Delivered(step.tid, s.queue[..k])]
  {
    var lim := s.threads[step.tid].call.lim;
    k := GreedyLength(s.queue, lim);
    GreedyStops(s.queue, lim);
  }

  // ---- Waiting over whole runs ----

  /** The current call of a thread: its timeout, the time it has spent inside waits, and whether it
      has had the lock before. */
  datatype Account = Account(timeout: nat, waited: nat, ran: bool)

  function AccountOf(steps: seq<Step>, t: Tid): Account
    decreases |steps|
  {
    if steps == [] then Account(0, 0, false) else
      var last := steps[|steps| - 1];
      var before := AccountOf(steps[..|steps| - 1], t);
      if last.tid != t then before
      else match last
        case Start(_, _, timeout) => Account(timeout, 0, false)
        case Run(_, elapsed, _) => Account(before.timeout, before.waited + if before.ran then elapsed else 0, true)
        case Unblock(_) => before
  }

  /** The thread's remaining time is its timeout less the time it has waited; if it has had the
      lock, it may block and had time left when it went to sleep. */
  predicate InTime(th: Thread, account: Account) {
    !th.Idle? ==>
      && th.remaining == account.timeout - account.waited
      && (th.Fresh? <==> !account.ran)
      && (!th.Fresh? ==> th.call.block && th.remaining > 0)
  }

  lemma StepKeepsTime(c: Config, s: State, step: Step, t: Tid, before: seq<Step>)
    requires Enabled(c, s, step) && t in Apply(c, s, step).threads
    requires t in s.threads ==> InTime(s.threads[t], AccountOf(before, t))
    ensures InTime(Apply(c, s, step).threads[t], AccountOf(before + [step], t))
  {
    assert (before + [step])[..|before|] == before;
    if step.Run? && step.tid == t {
      StuckCallsWait(c, s, step);
    }
  }

  lemma {:induction false} TimeIsCharged(c: Config, states: seq<State>, steps: seq<Step>, i: nat, t: Tid)
    requires IsRun(c, states, steps) && i < |states| && t in states[i].threads
    ensures InTime(states[i].threads[t], AccountOf(steps[..i], t))
  {
    if i > 0 {
      if t in states[i - 1].threads {
        TimeIsCharged(c, states, steps, i - 1, t);
      }
      StepKeepsTime(c, states[i - 1], steps[i - 1], t, steps[..i - 1]);
      assert steps[..i] == steps[..i - 1] + [steps[i - 1]];
    }
  }

  /** Whoever sleeps in a reachable state made a blocking call and has waited for less than its
      timeout; the difference is the time it has left. */
  lemma SleepersHaveTime(c: Config, states: seq<State>, steps: seq<Step>, i: nat, t: Tid)
    requires IsRun(c, states, steps) && i < |states|
    requires t in states[i].threads && states[i].threads[t].Blocked?
    ensures var th, account := states[i].threads[t], AccountOf(steps[..i], t);
            th.call.block && 0 < th.remaining == account.timeout - account.waited
  {
    TimeIsCharged(c, states, steps, i, t);
  }

  /** A sleeper can always leave its wait, and once its time is used up the call then returns. */
  lemma TimedOutReturns(c: Config, s: State, t: Tid, elapsed: nat) returns (resume: Step)
    requires t in s.threads && s.threads[t].Blocked? && elapsed >= s.threads[t].remaining
    ensures Enabled(c, s, Unblock(t)) && Enabled(c, Apply(c, s, Unblock(t)), resume)
    ensures resume.Run? && resume.tid == t && resume.elapsed == elapsed
    ensures Apply(c, Apply(c, s, Unblock(t)), resume).threads[t].Idle?
  {
    var awake := Apply(c, s, Unblock(t));
    resume := RunnableCanRun(c, awake, t, elapsed);
    StuckCallsWait(c, awake, resume);
  }
}
