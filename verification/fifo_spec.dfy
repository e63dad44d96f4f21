/** What one lock hold of `queue_put` and `queue_get` does to the queue seen as a sequence of
    messages.  The byte-level class `Queue` is proved to do exactly this, and the protocol of
    many threads is built from it. */
module FifoSpec {
  import opened Bytes

  type Message = seq<byte>

  /** A message as it lies in the buffer: its size, then its payload. */
  function Frame(m: Message): seq<byte> {
    ToBytes(|m|, HEADER_BYTES) + m
  }

  function Frames(q: seq<Message>): (bs: seq<byte>)
    ensures |bs| == FrameBytes(q)
  {
    if q == [] then [] else Frame(q[0]) + Frames(q[1..])
  }

  function FrameBytes(q: seq<Message>): (n: nat)
    ensures n >= HEADER_BYTES * |q|
  {
    if q == [] then 0 else HEADER_BYTES + |q[0]| + FrameBytes(q[1..])
  }

  /** The payload lengths of `q` added up. */
  function PayloadBytes(q: seq<Message>): nat {
    if q == [] then 0 else |q[0]| + PayloadBytes(q[1..])
  }

  /** A frame is eight bytes longer than its payload. */
  lemma {:induction false} FrameBytesCount(q: seq<Message>)
    ensures FrameBytes(q) == 8 * |q| + PayloadBytes(q)
  {
    if q != [] {
      FrameBytesCount(q[1..]);
    }
  }

  /** The messages of `q` lie in `bytes` one behind the other from the start: of each, eight bytes
      that say how long it is and then the message itself, byte by byte. */
  ghost predicate HoldsMessages(bytes: seq<byte>, q: seq<Message>) {
    forall i | 0 <= i < |q| :: HoldsMessage(bytes, 8 * i + PayloadBytes(q[..i]), q[i])
  }

  ghost predicate HoldsMessage(bytes: seq<byte>, at: nat, m: Message) {
    && at + 8 + |m| <= |bytes|
    && FromBytes(bytes[at..at + 8]) == |m|
    && bytes[at + 8..at + 8 + |m|] == m
  }

  /** What `Frames` lays out, followed by anything, holds the messages. */
  lemma FramesHold(bytes: seq<byte>, q: seq<Message>)
    requires FrameBytes(q) < SIZE_LIMIT && Frames(q) <= bytes
    ensures HoldsMessages(bytes, q)
  {
    forall i | 0 <= i < |q| ensures HoldsMessage(bytes, 8 * i + PayloadBytes(q[..i]), q[i]) {
      var before, after := FramesSplit(q, i);
      FrameHolds(bytes, 8 * i + PayloadBytes(q[..i]), Frames(q), before, q[i], after);
    }
  }

  lemma FramesSplit(q: seq<Message>, i: nat) returns (before: seq<byte>, after: seq<byte>)
    requires i < |q|
    ensures Frames(q) == before + Frame(q[i]) + after
    ensures |before| == 8 * i + PayloadBytes(q[..i])
    ensures |q[i]| <= FrameBytes(q)
  {
    assert q == q[..i] + [q[i]] + q[i + 1..];
    FramesConcat(q[..i] + [q[i]], q[i + 1..]);
    FramesSnoc(q[..i], q[i]);
    FrameBytesCount(q[..i]);
    before, after := Frames(q[..i]), Frames(q[i + 1..]);
  }

  lemma FrameHolds(bytes: seq<byte>, at: nat, frames: seq<byte>, before: seq<byte>, m: Message, after: seq<byte>)
    requires |m| < SIZE_LIMIT && frames <= bytes
    requires frames == before + Frame(m) + after && at == |before|
    ensures HoldsMessage(bytes, at, m)
  {
    HeaderRoundTrip(|m|);
    assert bytes[at..at + 8] == ToBytes(|m|, 8);
    assert bytes[at + 8..at + 8 + |m|] == m;
  }

  lemma ConcatAssociates<T>(x: seq<T>, y: seq<T>, z: seq<T>)
    ensures x + (y + z) == (x + y) + z
  {
  }

  lemma {:induction false} FrameBytesConcat(a: seq<Message>, b: seq<Message>)
    ensures FrameBytes(a + b) == FrameBytes(a) + FrameBytes(b)
  {
    if a == [] {
      assert a + b == b;
    } else {
      assert (a + b)[1..] == a[1..] + b;
      FrameBytesConcat(a[1..], b);
    }
  }

  lemma {:induction false} FramesConcat(a: seq<Message>, b: seq<Message>)
    ensures Frames(a + b) == Frames(a) + Frames(b)
  {
    if a == [] {
      assert a + b == b;
    } else {
      var frame := Frame(a[0]);
      assert Frames(a + b) == frame + Frames(a[1..] + b) by {
        assert (a + b)[1..] == a[1..] + b;
      }
      FramesConcat(a[1..], b);
      ConcatAssociates(frame, Frames(a[1..]), Frames(b));
    }
  }

  lemma FramesSnoc(q: seq<Message>, m: Message)
    ensures Frames(q + [m]) == Frames(q) + Frame(m)
    ensures FrameBytes(q + [m]) == FrameBytes(q) + HEADER_BYTES + |m|
  {
    FramesConcat(q, [m]);
    FrameBytesConcat(q, [m]);
    assert Frames([m]) == Frame(m);
  }

  /** The bytes of a queue determine its messages: no two queues are stored alike. */
  lemma {:induction false} FramesInjective(a: seq<Message>, b: seq<Message>)
    requires FrameBytes(a) < SIZE_LIMIT
    requires Frames(a) == Frames(b)
    ensures a == b
  {
    if a == [] || b == [] {
      assert |Frames(a)| == |Frames(b)|;
    } else {
      assert FrameBytes(a) == |Frames(a)| == |Frames(b)| == FrameBytes(b);
      HeaderRoundTrip(|a[0]|);
      HeaderRoundTrip(|b[0]|);
      assert Frame(a[0])[..HEADER_BYTES] == Frames(a)[..HEADER_BYTES]
          == Frames(b)[..HEADER_BYTES] == Frame(b[0])[..HEADER_BYTES];
      assert Frame(a[0])[..HEADER_BYTES] == ToBytes(|a[0]|, HEADER_BYTES);
      assert Frame(b[0])[..HEADER_BYTES] == ToBytes(|b[0]|, HEADER_BYTES);
      var n := HEADER_BYTES + |a[0]|;
      assert Frame(a[0]) == Frames(a)[..n] == Frames(b)[..n] == Frame(b[0]);
      assert a[0] == Frame(a[0])[HEADER_BYTES..] == Frame(b[0])[HEADER_BYTES..] == b[0];
      assert Frames(a[1..]) == Frames(a)[n..] == Frames(b)[n..] == Frames(b[1..]);
      FramesInjective(a[1..], b[1..]);
      assert a == [a[0]] + a[1..] && b == [b[0]] + b[1..];
    }
  }

  // ---- Capacity ----

  datatype Config = Config(maxSizeBytes: nat, maxSize: nat)

  predicate CanFit(c: Config, q: seq<Message>, dataSize: nat, additional: nat) {
    FrameBytes(q) + dataSize <= c.maxSizeBytes && |q| + additional <= c.maxSize
  }

  predicate WithinCapacity(c: Config, q: seq<Message>) {
    CanFit(c, q, 0, 0)
  }

  /** There is room for `msgs` behind `q`: eight bytes and the payload for each message, and a
      place for each. */
  ghost predicate Room(c: Config, q: seq<Message>, msgs: seq<Message>) {
    && 8 * (|q| + |msgs|) + PayloadBytes(q) + PayloadBytes(msgs) <= c.maxSizeBytes
    && |q| + |msgs| <= c.maxSize
  }

  lemma CanFitIsRoom(c: Config, q: seq<Message>, msgs: seq<Message>)
    ensures CanFit(c, q, FrameBytes(msgs), |msgs|) <==> Room(c, q, msgs)
  {
    FrameBytesCount(q);
    FrameBytesCount(msgs);
  }

  // ---- queue_put ----

  datatype Signal = NoSignal | WakeConsumer | WakeProducer

  datatype PutOutcome = Stored | Full | PutSleep

  datatype PutEffect = PutEffect(outcome: PutOutcome, queue: seq<Message>, signal: Signal)

  // The smallest request a woken producer could make: a header and one byte.
  const MIN_MSG_SIZE: nat := HEADER_BYTES + 1

  /** One lock hold of `queue_put`; `notEmpty` and `notFull` count the threads inside a wait. */
  function PutHold(c: Config, q: seq<Message>, notEmpty: int, notFull: int,
                   msgs: seq<Message>, mayWait: bool): PutEffect
  {
    if CanFit(c, q, FrameBytes(msgs), |msgs|) then
      PutEffect(Stored, q + msgs,
                if notEmpty > 0 then WakeConsumer
                else if notFull != 0 && CanFit(c, q + msgs, MIN_MSG_SIZE, 1) then WakeProducer
                else NoSignal)
    else if !mayWait then
      PutEffect(Full, q, NoSignal)
    else
      PutEffect(PutSleep, q, if notEmpty > 0 then WakeConsumer else NoSignal)
  }

  /** Some message of one byte: the smallest there is but for the empty one. */
  const SMALLEST: Message := [0]

  lemma SmallestFits(c: Config, q: seq<Message>)
    ensures CanFit(c, q, MIN_MSG_SIZE, 1) <==> Room(c, q, [SMALLEST])
  {
    CanFitIsRoom(c, q, [SMALLEST]);
    assert FrameBytes([SMALLEST]) == MIN_MSG_SIZE;
  }

  /** When a put stores, gives up or sleeps, and whom it signals. */
  lemma PutHoldDecides(c: Config, q: seq<Message>, notEmpty: int, notFull: int, msgs: seq<Message>, mayWait: bool)
    ensures var e := PutHold(c, q, notEmpty, notFull, msgs, mayWait);
            && (e.outcome.Stored? <==> Room(c, q, msgs))
            && (e.outcome.PutSleep? <==> !Room(c, q, msgs) && mayWait)
            && e.queue == (if Room(c, q, msgs) then q + msgs else q)
            && (e.signal == WakeConsumer <==> notEmpty > 0 && (Room(c, q, msgs) || mayWait))
            && (e.signal == WakeProducer <==>
                  notEmpty <= 0 && notFull != 0 && Room(c, q, msgs) && Room(c, q + msgs, [SMALLEST]))
  {
    CanFitIsRoom(c, q, msgs);
    SmallestFits(c, q + msgs);
  }

  // ---- queue_get ----

  datatype Limits = Limits(bufferSize: size_t, maxMessages: size_t, maxBytes: size_t)

  /** After `k` messages the limits still ask for another one. */
  predicate Wanted(q: seq<Message>, lim: Limits, k: nat)
    requires k <= |q|
  {
    k < lim.maxMessages && FrameBytes(q[..k]) < lim.maxBytes
  }

  /** The first `k` frames together fit in the caller's buffer. */
  predicate Fits(q: seq<Message>, lim: Limits, k: nat)
    requires k <= |q|
  {
    FrameBytes(q[..k]) <= lim.bufferSize
  }

  /** `k` is where a reader stops that takes messages for as long as it may. */
  ghost predicate IsGreedyPrefix(q: seq<Message>, lim: Limits, k: nat) {
    && k <= |q|
    && (forall j | 0 <= j < k :: Wanted(q, lim, j) && Fits(q, lim, j + 1))
    && (k < |q| && Wanted(q, lim, k) ==> !Fits(q, lim, k + 1))
  }

  function GreedyFrom(q: seq<Message>, lim: Limits, k: nat): (n: nat)
    requires k <= |q|
    ensures k <= n <= |q|
    decreases |q| - k
  {
    if k < |q| && Wanted(q, lim, k) && Fits(q, lim, k + 1) then GreedyFrom(q, lim, k + 1) else k
  }

  function GreedyLength(q: seq<Message>, lim: Limits): (n: nat)
    ensures n <= |q|
  {
    GreedyFrom(q, lim, 0)
  }

  lemma {:induction false} GreedyFromStops(q: seq<Message>, lim: Limits, k: nat)
    requires k <= |q|
    requires forall j | 0 <= j < k :: Wanted(q, lim, j) && Fits(q, lim, j + 1)
    ensures IsGreedyPrefix(q, lim, GreedyFrom(q, lim, k))
    decreases |q| - k
  {
    if k < |q| && Wanted(q, lim, k) && Fits(q, lim, k + 1) {
      GreedyFromStops(q, lim, k + 1);
    }
  }

  lemma GreedyUnique(q: seq<Message>, lim: Limits, k: nat, n: nat)
    requires IsGreedyPrefix(q, lim, k) && IsGreedyPrefix(q, lim, n)
    ensures k == n
  {
    if n < k {
      assert false;
    } else if k < n {
      assert false;
    }
  }

  /** Exactly one prefix is greedy, and `GreedyLength` is its length. */
  lemma GreedyIsExact(q: seq<Message>, lim: Limits, k: nat)
    ensures IsGreedyPrefix(q, lim, k) <==> k == GreedyLength(q, lim)
  {
    GreedyFromStops(q, lim, 0);
    var n := GreedyLength(q, lim);
    if IsGreedyPrefix(q, lim, k) {
      GreedyUnique(q, lim, k, n);
    }
  }

  /** `k` is where the limits stop a reader: it has as many as it asked for, has read enough
      bytes, has emptied the queue, or the next message would be too much for its buffer. */
  ghost predicate StopsAt(q: seq<Message>, lim: Limits, k: nat) {
    && k <= |q| && k <= lim.maxMessages
    && (k > 0 ==> 8 * (k - 1) + PayloadBytes(q[..k - 1]) < lim.maxBytes)
    && (k > 0 ==> 8 * k + PayloadBytes(q[..k]) <= lim.bufferSize)
    && (|| k == |q|
        || k == lim.maxMessages
        || 8 * k + PayloadBytes(q[..k]) >= lim.maxBytes
        || 8 * (k + 1) + PayloadBytes(q[..k + 1]) > lim.bufferSize)
  }

  lemma PrefixBytes(q: seq<Message>, j: nat, k: nat)
    requires j <= k <= |q|
    ensures FrameBytes(q[..j]) == 8 * j + PayloadBytes(q[..j]) <= FrameBytes(q[..k])
  {
    FrameBytesCount(q[..j]);
    assert q[..k] == q[..j] + q[j..k];
    FrameBytesConcat(q[..j], q[j..k]);
  }

  lemma GreedyStops(q: seq<Message>, lim: Limits)
    ensures StopsAt(q, lim, GreedyLength(q, lim))
  {
    var k := GreedyLength(q, lim);
    GreedyIsExact(q, lim, k);
    PrefixBytes(q, k, k);
    if k > 0 {
      assert Wanted(q, lim, k - 1) && Fits(q, lim, k - 1 + 1);
      PrefixBytes(q, k - 1, k);
    }
    if k < |q| {
      PrefixBytes(q, k, k + 1);
      PrefixBytes(q, k + 1, k + 1);
    }
  }

  lemma WantedBefore(q: seq<Message>, lim: Limits, k: nat, j: nat)
    requires StopsAt(q, lim, k) && j < k
    ensures Wanted(q, lim, j) && Fits(q, lim, j + 1)
  {
    PrefixBytes(q, j, k - 1);
    PrefixBytes(q, k - 1, k);
    PrefixBytes(q, j + 1, k);
    PrefixBytes(q, k, k);
  }

  lemma StopIsGreedy(q: seq<Message>, lim: Limits, k: nat)
    requires StopsAt(q, lim, k)
    ensures k == GreedyLength(q, lim)
  {
    forall j | 0 <= j < k ensures Wanted(q, lim, j) && Fits(q, lim, j + 1) {
      WantedBefore(q, lim, k, j);
    }
    NoMoreAfter(q, lim, k);
    assert IsGreedyPrefix(q, lim, k);
    GreedyIsExact(q, lim, k);
  }

  lemma NoMoreAfter(q: seq<Message>, lim: Limits, k: nat)
    requires StopsAt(q, lim, k)
    ensures k < |q| && Wanted(q, lim, k) ==> !Fits(q, lim, k + 1)
  {
    if k < |q| {
      PrefixBytes(q, k, k + 1);
      PrefixBytes(q, k + 1, k + 1);
    }
  }

  /** A get takes as many messages as its three limits allow and not one more. */
  lemma GreedyStopsThere(q: seq<Message>, lim: Limits, k: nat)
    ensures k == GreedyLength(q, lim) <==> StopsAt(q, lim, k)
  {
    GreedyStops(q, lim);
    if StopsAt(q, lim, k) {
      StopIsGreedy(q, lim, k);
    }
  }

  datatype GetStatus = Success | Empty | TooSmall

  datatype GetOutcome = Finished(status: GetStatus, taken: nat) | GetSleep

  datatype GetEffect = GetEffect(outcome: GetOutcome, queue: seq<Message>, signal: Signal)

  /** Another message was asked for, is there, and does not fit the caller's buffer. */
  predicate StopsForBuffer(q: seq<Message>, lim: Limits, k: nat)
    requires k <= |q|
  {
    k < |q| && Wanted(q, lim, k)
  }

  /** One lock hold of `queue_get`. */
  function GetHold(q: seq<Message>, notEmpty: int, notFull: int, lim: Limits, mayWait: bool): (e: GetEffect)
    ensures e.outcome.Finished? ==> e.outcome.taken <= |q| && e.queue == q[e.outcome.taken..]
    ensures e.outcome.GetSleep? ==> e.queue == q
  {
    if q == [] then
      GetEffect(if mayWait then GetSleep else Finished(Empty, 0), q, NoSignal)
    else
      var k := GreedyLength(q, lim);
      GetEffect(Finished(if StopsForBuffer(q, lim, k) then TooSmall else Success, k), q[k..],
                if k > 0 && notFull > 0 then WakeProducer
                else if q[k..] != [] && notEmpty > 0 then WakeConsumer
                else NoSignal)
  }

  /** The size `queue_get` reports: what was read, and the frame that did not fit, if any. */
  function ReportedSize(q: seq<Message>, lim: Limits): nat {
    var k := GreedyLength(q, lim);
    if StopsForBuffer(q, lim, k) then FrameBytes(q[..k + 1]) else FrameBytes(q[..k])
  }
}
