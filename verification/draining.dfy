/** A single consumer that enlarges its buffer when told to: it makes progress, and with no
    producer about it empties the queue without losing or reordering anything. */
module Draining {
  import opened Bytes
  import opened FifoSpec

  predicate AsksForSomething(lim: Limits) {
    lim.maxMessages >= 1 && lim.maxBytes >= 1
  }

  predicate ToldTooSmall(q: seq<Message>, lim: Limits) {
    q != [] && StopsForBuffer(q, lim, GreedyLength(q, lim))
  }

  function Rest(q: seq<Message>, lim: Limits): seq<Message> {
    q[GreedyLength(q, lim)..]
  }

  /** A call that delivers nothing from a non-empty queue was refused for its buffer only. */
  lemma OnlyBufferRefuses(q: seq<Message>, lim: Limits)
    requires q != [] && AsksForSomething(lim)
    ensures GreedyLength(q, lim) == 0 <==> lim.bufferSize < HEADER_BYTES + |q[0]|
    ensures GreedyLength(q, lim) == 0 ==> ToldTooSmall(q, lim)
  {
    assert q[..0] == [] && q[..1] == [q[0]];
    assert FrameBytes([q[0]]) == HEADER_BYTES + |q[0]|;
    assert Wanted(q, lim, 0);
  }

  /** After Q_MSG_BUFFER_TOO_SMALL a buffer of the reported size is enough for the next call to
      deliver something. */
  lemma RetryDelivers(q: seq<Message>, lim: Limits, retry: Limits)
    requires ToldTooSmall(q, lim)
    requires AsksForSomething(retry) && retry.bufferSize >= ReportedSize(q, lim)
    ensures Rest(q, lim) != [] && GreedyLength(Rest(q, lim), retry) >= 1
  {
    var k := GreedyLength(q, lim);
    assert q[..k + 1] == q[..k] + [q[k]];
    FramesSnoc(q[..k], q[k]);
    OnlyBufferRefuses(Rest(q, lim), retry);
  }

  /** The consumer's own rule, over the calls it makes one after another. */
  ghost predicate Obedient(q: seq<Message>, calls: seq<Limits>)
    decreases |calls|
  {
    calls != [] ==>
      && AsksForSomething(calls[0])
      && (ToldTooSmall(q, calls[0]) && |calls| > 1 ==> calls[1].bufferSize >= ReportedSize(q, calls[0]))
      && Obedient(Rest(q, calls[0]), calls[1..])
  }

  function LeftAfter(q: seq<Message>, calls: seq<Limits>): seq<Message>
    decreases |calls|
  {
    if calls == [] then q else LeftAfter(Rest(q, calls[0]), calls[1..])
  }

  function DeliveredBy(q: seq<Message>, calls: seq<Limits>): seq<Message>
    decreases |calls|
  {
    if calls == [] then [] else q[..GreedyLength(q, calls[0])] + DeliveredBy(Rest(q, calls[0]), calls[1..])
  }

  lemma {:induction false} NothingIsLost(q: seq<Message>, calls: seq<Limits>)
    ensures DeliveredBy(q, calls) + LeftAfter(q, calls) == q
    decreases |calls|
  {
    if calls != [] {
      NothingIsLost(Rest(q, calls[0]), calls[1..]);
    }
  }

  /** Two calls per message always suffice to empty the queue, whatever the first buffer was. */
  lemma {:induction false} DrainsTheQueue(q: seq<Message>, calls: seq<Limits>)
    requires Obedient(q, calls) && |calls| >= 2 * |q|
    ensures LeftAfter(q, calls) == []
    ensures DeliveredBy(q, calls) == q
    decreases |calls|
  {
    NothingIsLost(q, calls);
    if calls != [] {
      var rest := Rest(q, calls[0]);
      if q == [] || GreedyLength(q, calls[0]) > 0 {
        DrainsTheQueue(rest, calls[1..]);
      } else {
        OnlyBufferRefuses(q, calls[0]);
        RetryDelivers(q, calls[0], calls[1]);
        assert rest == q && calls[1..][1..] == calls[2..] && calls[1..][0] == calls[1];
        DrainsTheQueue(Rest(q, calls[1]), calls[2..]);
      }
    }
  }
}
