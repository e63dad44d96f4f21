/** The `timeval` arithmetic of the waiting loops.  A float timeout is given as the non-negative
    number of microseconds it is converted to. */
module Timer {
  const MILLION: int := 1000000

  datatype TimeVal = TimeVal(sec: int, usec: int) {
    ghost predicate Normal() { 0 <= usec < MILLION }

    ghost function Micros(): int { sec * MILLION + usec }
  }

  function MicrosToTimeVal(waitUs: nat): (t: TimeVal)
    ensures t.Normal() && t.Micros() == waitUs
  {
    TimeVal(waitUs / MILLION, waitUs % MILLION)
  }

  // timeradd
  function Add(a: TimeVal, b: TimeVal): (t: TimeVal)
    requires a.Normal() && b.Normal()
    ensures t.Normal() && t.Micros() == a.Micros() + b.Micros()
  {
    var sec, usec := a.sec + b.sec, a.usec + b.usec;
    if usec >= MILLION then TimeVal(sec + 1, usec - MILLION) else TimeVal(sec, usec)
  }

  // timersub
  function Sub(a: TimeVal, b: TimeVal): (t: TimeVal)
    requires a.Normal() && b.Normal()
    ensures t.Normal() && t.Micros() == a.Micros() - b.Micros()
  {
    var sec, usec := a.sec - b.sec, a.usec - b.usec;
    if usec < 0 then TimeVal(sec - 1, usec + MILLION) else TimeVal(sec, usec)
  }

  predicate Positive(t: TimeVal)
    requires t.Normal()
    ensures Positive(t) <==> t.Micros() > 0
  {
    t.sec > 0 || (t.sec == 0 && t.usec > 0)
  }

  /** The clock readings taken just before and just after one timed wait. */
  datatype Wait = Wait(before: TimeVal, after: TimeVal) {
    ghost predicate Normal() { before.Normal() && after.Normal() }

    ghost function Elapsed(): int { after.Micros() - before.Micros() }
  }

  /** The absolute deadline handed to the timed wait, as seconds and nanoseconds. */
  function Deadline(waitTime: TimeVal, now: TimeVal): (ts: (int, int))
    requires waitTime.Normal() && now.Normal()
    ensures 0 <= ts.1 < 1000000000
    ensures ts.0 * 1000000000 + ts.1 == (now.Micros() + waitTime.Micros()) * 1000
  {
    var until := Add(now, waitTime);
    (until.sec, until.usec * 1000)
  }

  /** What `wait` returns: the time left until the deadline, negative once it has passed. */
  function Remaining(waitTime: TimeVal, w: Wait): (t: TimeVal)
    requires waitTime.Normal() && w.Normal()
    ensures t.Normal() && t.Micros() == waitTime.Micros() - w.Elapsed()
  {
    Sub(Add(w.before, waitTime), w.after)
  }

  ghost predicate AllNormal(ws: seq<Wait>) {
    forall w | w in ws :: w.Normal()
  }

  /** The remaining time a retry loop holds after the waits `ws`. */
  function RemainingAfter(initial: TimeVal, ws: seq<Wait>): (t: TimeVal)
    requires initial.Normal() && AllNormal(ws)
    ensures t.Normal()
    decreases |ws|
  {
    if ws == [] then initial
    else Remaining(RemainingAfter(initial, ws[..|ws| - 1]), ws[|ws| - 1])
  }

  ghost function TotalElapsed(ws: seq<Wait>): int
    decreases |ws|
  {
    if ws == [] then 0 else TotalElapsed(ws[..|ws| - 1]) + ws[|ws| - 1].Elapsed()
  }

  /** Over any number of retries the time spent inside the waits is exactly what is missing
      from the remaining time; time between two waits is not charged. */
  lemma {:induction false} TimeIsConserved(initial: TimeVal, ws: seq<Wait>)
    requires initial.Normal() && AllNormal(ws)
    ensures RemainingAfter(initial, ws).Micros() == initial.Micros() - TotalElapsed(ws)
    decreases |ws|
  {
    if ws != [] {
      TimeIsConserved(initial, ws[..|ws| - 1]);
    }
  }

  /** If every wait advances the clock, a loop that only waits while time remains waits at most
      once per initial microsecond: it cannot retry forever. */
  lemma {:induction false} RetriesAreBounded(initial: TimeVal, ws: seq<Wait>)
    requires initial.Normal() && AllNormal(ws)
    requires forall w | w in ws :: w.Elapsed() >= 1
    requires forall i | 0 <= i < |ws| :: Positive(RemainingAfter(initial, ws[..i]))
    ensures ws != [] ==> |ws| <= initial.Micros()
    ensures RemainingAfter(initial, ws).Micros() <= initial.Micros() - |ws|
    decreases |ws|
  {
    if ws != [] {
      var before := ws[..|ws| - 1];
      forall i | 0 <= i < |before| ensures Positive(RemainingAfter(initial, before[..i])) {
        assert before[..i] == ws[..i];
      }
      RetriesAreBounded(initial, before);
      assert Positive(RemainingAfter(initial, before));
    }
  }
}
