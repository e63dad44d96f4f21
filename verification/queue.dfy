/** The shared-memory queue over its real circular byte buffer.  Each method is one stretch of
    code run under the mutex; `contents` is the message sequence the bytes stand for. */
module ByteQueue {
  import opened Bytes
  import opened FifoSpec
  import opened Timer

  /** The `n` bytes that start at `head`, reading circularly. */
  function Window(buf: seq<byte>, head: nat, n: nat): (w: seq<byte>)
    requires head < |buf| && n <= |buf|
    ensures |w| == n
  {
    if head + n <= |buf| then buf[head..head + n] else buf[head..] + buf[..head + n - |buf|]
  }

  /** Where circular index `i` beyond `head` lies. */
  function Slot(cap: nat, head: nat, i: nat): nat {
    if head + i < cap then head + i else head + i - cap
  }

  lemma WindowAt(buf: seq<byte>, head: nat, n: nat)
    requires head < |buf| && n <= |buf|
    ensures forall i | 0 <= i < n ::
              Slot(|buf|, head, i) < |buf| && Window(buf, head, n)[i] == buf[Slot(|buf|, head, i)]
  {
  }

  /** The two windows of a stretch split at `k`. */
  lemma WindowSplit(buf: seq<byte>, head: nat, k: nat, n: nat)
    requires head < |buf| && k <= n <= |buf|
    ensures Slot(|buf|, head, k) < |buf|
    ensures Window(buf, head, k) == Window(buf, head, n)[..k]
    ensures Window(buf, Slot(|buf|, head, k), n - k) == Window(buf, head, n)[k..]
  {
  }

  /** Writing `data` into the slots behind the live window leaves the live bytes alone. */
  lemma WindowAppend(buf: seq<byte>, after: seq<byte>, head: nat, n: nat, data: seq<byte>)
    requires head < |buf| == |after| && n + |data| <= |buf|
    requires forall i | 0 <= i < n :: after[Slot(|buf|, head, i)] == buf[Slot(|buf|, head, i)]
    requires forall i | 0 <= i < |data| :: after[Slot(|buf|, head, n + i)] == data[i]
    ensures Window(after, head, n + |data|) == Window(buf, head, n) + data
  {
    WindowAt(buf, head, n);
    WindowAt(after, head, n + |data|);
    var w, e := Window(after, head, n + |data|), Window(buf, head, n) + data;
    forall i | 0 <= i < |w| ensures w[i] == e[i] {
      if i >= n {
        assert after[Slot(|buf|, head, n + (i - n))] == data[i - n];
      }
    }
  }

  /** `s` with the bytes of `src` in place of its own from `at` on. */
  function Overwrite(s: seq<byte>, at: nat, src: seq<byte>): (after: seq<byte>)
    requires at + |src| <= |s|
    ensures |after| == |s|
  {
    s[..at] + src + s[at + |src|..]
  }

  /** A write that ends before the edge of the buffer. */
  lemma AppendStraight(buf: seq<byte>, after: seq<byte>, head: nat, n: nat, at: nat, data: seq<byte>)
    requires head < |buf| && n + |data| <= |buf| && at == Slot(|buf|, head, n)
    requires at + |data| < |buf| && after == Overwrite(buf, at, data)
    ensures Window(after, head, n + |data|) == Window(buf, head, n) + data
  {
    WindowAppend(buf, after, head, n, data);
  }

  /** A write that reaches the edge: its first `k` bytes end there, the rest starts the buffer. */
  lemma AppendWrapped(buf: seq<byte>, half: seq<byte>, after: seq<byte>, head: nat, n: nat,
                      at: nat, data: seq<byte>, k: nat)
    requires head < |buf| && n + |data| <= |buf| && k <= |data|
    requires at == Slot(|buf|, head, n) && at + k == |buf|
    requires half == Overwrite(buf, at, data[..k]) && after == Overwrite(half, 0, data[k..])
    ensures |data| - k == Slot(|buf|, head, n + |data|) < |buf|
    ensures Window(after, head, n + |data|) == Window(buf, head, n) + data
  {
    WindowAppend(buf, after, head, n, data);
  }

  /** A read that reaches the edge: its first `k` bytes end there, the rest starts the buffer. */
  lemma WindowWrapped(buf: seq<byte>, head: nat, n: nat, k: nat)
    requires head < |buf| && k <= n <= |buf| && head + k == |buf|
    ensures Window(buf, head, n) == buf[head..] + buf[..n - k]
    ensures n - k == Slot(|buf|, head, n) < |buf|
  {
  }

  method MemCopy(dst: array<byte>, at: nat, src: seq<byte>)
    requires at + |src| <= dst.Length
    modifies dst
    ensures dst[..] == Overwrite(old(dst[..]), at, src)
  {
    forall i | 0 <= i < |src| {
      dst[at + i] := src[i];
    }
  }

  lemma CopyTwice(s0: seq<byte>, s1: seq<byte>, s2: seq<byte>, at: nat, mid: nat, x: seq<byte>, y: seq<byte>)
    requires mid == at + |x| && mid + |y| <= |s0|
    requires s1 == Overwrite(s0, at, x) && s2 == Overwrite(s1, mid, y)
    ensures s2 == Overwrite(s0, at, x + y)
  {
    assert s1[..mid] == s0[..at] + x;
    assert s1[mid + |y|..] == s0[mid + |y|..];
  }

  /** Two copies to adjacent places are one copy of both pieces. */
  method MemCopyBoth(dst: array<byte>, at: nat, x: seq<byte>, y: seq<byte>)
    requires at + |x| + |y| <= dst.Length
    modifies dst
    ensures dst[..] == Overwrite(old(dst[..]), at, x + y)
  {
    ghost var s0 := dst[..];
    MemCopy(dst, at, x);
    ghost var s1 := dst[..];
    MemCopy(dst, at + |x|, y);
    CopyTwice(s0, s1, dst[..], at, at + |x|, x, y);
  }

  class Queue {
    const maxSizeBytes: size_t
    const maxSize: size_t
    const buffer: array<byte>
    var head: size_t
    var tail: size_t
    var size: size_t
    var numElem: size_t
    var notEmptyWaiters: int
    var notFullWaiters: int
    ghost var contents: seq<Message>

    /** The ring itself is in order, whatever its bytes mean. */
    ghost predicate RingValid()
      reads this`head, this`tail, this`size
    {
      && buffer.Length == maxSizeBytes
      && 0 < maxSizeBytes
      && 2 * maxSizeBytes < SIZE_LIMIT
      && head < maxSizeBytes
      && tail < maxSizeBytes
      && size <= maxSizeBytes
      && tail == Slot(maxSizeBytes, head, size)
    }

    ghost function Live(): seq<byte>
      requires RingValid()
      reads this`head, this`tail, this`size, buffer
    {
      Window(buffer[..], head, size)
    }

    ghost function Settings(): Config {
      Config(maxSizeBytes, maxSize)
    }

    /** Between two lock holds: the live bytes are the frames of `contents`, counted correctly. */
    ghost predicate Valid()
      reads this`head, this`tail, this`size, this`numElem, this`contents, buffer
    {
      && RingValid()
      && Live() == Frames(contents)
      && numElem == |contents| <= maxSize
    }

    constructor (buffer: array<byte>, maxSizeBytes: size_t, maxSize: size_t)
      requires buffer.Length == maxSizeBytes
      requires 0 < maxSizeBytes && 2 * maxSizeBytes < SIZE_LIMIT
      ensures Valid() && contents == []
      ensures this.buffer == buffer && Settings() == Config(maxSizeBytes, maxSize)
      ensures notEmptyWaiters == notFullWaiters == 0
    {
      this.buffer := buffer;
      this.maxSizeBytes := maxSizeBytes;
      this.maxSize := maxSize;
      head, tail, size, numElem := 0, 0, 0, 0;
      notEmptyWaiters, notFullWaiters := 0, 0;
      contents := [];
    }

    /** `size == 0` is a safe test for "no message": it holds exactly when there is none. */
    lemma EmptyTests()
      requires Valid()
      ensures size == 0 <==> contents == []
      ensures size == 0 <==> numElem == 0
      ensures size == FrameBytes(contents)
      ensures WithinCapacity(Settings(), contents)
    {
      SizeIsZero();
    }

    lemma SizeIsZero()
      requires Valid()
      ensures size == FrameBytes(contents)
      ensures size == 0 <==> contents == []
    {
      assert |Live()| == |Frames(contents)|;
    }

    predicate CanFitBytes(dataSize: size_t, additional: size_t)
      reads this
    {
      size + dataSize <= maxSizeBytes && numElem + additional <= maxSize
    }

    /** The copying half of `CircularBufferWrite`, and where the next write would start. */
    method CopyIn(data: seq<byte>) returns (newTail: size_t)
      requires RingValid()
      requires size + |data| <= maxSizeBytes
      modifies buffer
      ensures Window(buffer[..], head, size + |data|) == old(Live()) + data
      ensures newTail == Slot(maxSizeBytes, head, size + |data|) < maxSizeBytes
    {
      ghost var was := buffer[..];
      var end: size_t := tail + |data|;
      if end < maxSizeBytes {
        MemCopy(buffer, tail, data);
        AppendStraight(was, buffer[..], head, size, tail, data);
        newTail := end;
      } else {
        var beforeWrap: size_t := maxSizeBytes - tail;
        var afterWrap: size_t := |data| - beforeWrap;
        MemCopy(buffer, tail, data[..beforeWrap]);
        ghost var half := buffer[..];
        MemCopy(buffer, 0, data[beforeWrap..]);
        AppendWrapped(was, half, buffer[..], head, size, tail, data, beforeWrap);
        newTail := afterWrap;
      }
    }

    /** Appends `data` behind the live bytes. */
    method CircularBufferWrite(data: seq<byte>)
      requires RingValid()
      requires size + |data| <= maxSizeBytes
      modifies this`tail, this`size, buffer
      ensures RingValid()
      ensures Live() == old(Live()) + data
    {
      var newTail := CopyIn(data);
      tail := newTail;
      size := size + |data|;
    }

    /** The copying half of `CircularBufferRead`, and where the next read would start. */
    method CopyOut(data: array<byte>, at: nat, readSize: size_t) returns (newHead: size_t)
      requires RingValid()
      requires readSize <= size && at + readSize <= data.Length
      requires data != buffer
      modifies data
      ensures data[..] == Overwrite(old(data[..]), at, Window(buffer[..], head, readSize))
      ensures newHead == Slot(maxSizeBytes, head, readSize) < maxSizeBytes
    {
      var end: size_t := head + readSize;
      if end < maxSizeBytes {
        MemCopy(data, at, buffer[head..end]);
        newHead := end;
      } else {
        var beforeWrap: size_t := maxSizeBytes - head;
        var afterWrap: size_t := readSize - beforeWrap;
        MemCopyBoth(data, at, buffer[head..], buffer[..afterWrap]);
        WindowWrapped(buffer[..], head, readSize, beforeWrap);
        newHead := afterWrap;
      }
    }

    /** Copies the first `readSize` live bytes to `data[at..]`; drops them when asked to. */
    method CircularBufferRead(data: array<byte>, at: nat, readSize: size_t, popMessage: bool)
      requires RingValid()
      requires readSize <= size && at + readSize <= data.Length
      requires data != buffer
      modifies this`head, this`size, data
      ensures RingValid()
      ensures data[..] == Overwrite(old(data[..]), at, old(Live())[..readSize])
      ensures Live() == if popMessage then old(Live())[readSize..] else old(Live())
      ensures !popMessage ==> head == old(head) && size == old(size)
    {
      WindowSplit(buffer[..], head, readSize, size);
      var newHead := CopyOut(data, at, readSize);
      var newSize: size_t := size - readSize;
      if popMessage {
        head := newHead;
        size := newSize;
      }
    }

    /** One lock hold of `queue_put`: from the call, or from a wake-up, to the return or the
        next sleep. */
    method PutHold(msgs: seq<Message>, block: bool, remaining: TimeVal, resumed: bool)
      returns (outcome: PutOutcome, signal: Signal)
      requires Valid() && remaining.Normal()
      requires maxSizeBytes + FrameBytes(msgs) < SIZE_LIMIT && maxSize + |msgs| < SIZE_LIMIT
      modifies this`tail, this`size, this`numElem, this`contents, buffer
      modifies this`notFullWaiters
      ensures Valid()
      ensures PutEffect(outcome, contents, signal)
           == FifoSpec.PutHold(Settings(), old(contents), notEmptyWaiters,
                               old(notFullWaiters) - (if resumed then 1 else 0), msgs,
                               block && Positive(remaining))
      // With room the batch is stored whole; without, the caller waits or goes away with Q_FULL.
      ensures Room(Settings(), old(contents), msgs) ==>
                && outcome == Stored && contents == old(contents) + msgs
                && (signal == WakeConsumer <==> notEmptyWaiters > 0)
                && (signal == WakeProducer <==> notEmptyWaiters <= 0 && notFullWaiters != 0
                                                && Room(Settings(), contents, [SMALLEST]))
      ensures !Room(Settings(), old(contents), msgs) ==>
                && outcome == (if block && Positive(remaining) then PutSleep else Full)
                && unchanged(this`tail, this`size, this`numElem, this`contents, buffer)
                && signal == (if outcome.PutSleep? && notEmptyWaiters > 0 then WakeConsumer else NoSignal)
      ensures HoldsMessages(Live(), contents)
      ensures notFullWaiters == old(notFullWaiters) - (if resumed then 1 else 0)
                                                    + (if outcome.PutSleep? then 1 else 0)
    {
      notFullWaiters := notFullWaiters - if resumed then 1 else 0;
      var totalSize := TotalSize(msgs);
      CanFitMeans(totalSize, |msgs|);
      CanFitIsRoom(Settings(), contents, msgs);
      if CanFitBytes(totalSize, |msgs|) {
        signal := StoreAndSignal(msgs);
        outcome := Stored;
      } else {
        outcome, signal := WaitOrReturnFull(block, remaining);
      }
      LiveHoldsMessages();
    }

    /** The loop of `queue_put` that waits for room, up to the return or the wait. */
    method WaitOrReturnFull(block: bool, remaining: TimeVal) returns (outcome: PutOutcome, signal: Signal)
      requires remaining.Normal()
      modifies this`notFullWaiters
      ensures outcome == if block && Positive(remaining) then PutSleep else Full
      ensures signal == if outcome.PutSleep? && notEmptyWaiters > 0 then WakeConsumer else NoSignal
      ensures notFullWaiters == old(notFullWaiters) + if outcome.PutSleep? then 1 else 0
    {
      if !block || !Positive(remaining) {
        return Full, NoSignal;
      }
      outcome, signal := PutSleep, NoSignal;
      if notEmptyWaiters > 0 {
        signal := WakeConsumer;
      }
      notFullWaiters := notFullWaiters + 1;
    }

    /** What `queue_put` does once the batch fits: the writing loop and its one signal. */
    method StoreAndSignal(msgs: seq<Message>) returns (signal: Signal)
      requires Valid()
      requires CanFit(Settings(), contents, FrameBytes(msgs), |msgs|)
      modifies this`tail, this`size, this`numElem, this`contents, buffer
      ensures Valid() && contents == old(contents) + msgs
      ensures signal == if notEmptyWaiters > 0 then WakeConsumer
                        else if notFullWaiters != 0 && CanFit(Settings(), contents, MIN_MSG_SIZE, 1) then WakeProducer
                        else NoSignal
      ensures signal == WakeConsumer <==> notEmptyWaiters > 0
      ensures signal == WakeProducer <==> notEmptyWaiters <= 0 && notFullWaiters != 0
                                          && Room(Settings(), contents, [SMALLEST])
    {
      StoreAll(msgs);
      CanFitMeans(MIN_MSG_SIZE, 1);
      SmallestFits(Settings(), contents);
      signal :=
        if notEmptyWaiters > 0 then WakeConsumer
        else if notFullWaiters != 0 && CanFitBytes(MIN_MSG_SIZE, 1) then WakeProducer
        else NoSignal;
    }

    lemma CanFitMeans(dataSize: size_t, additional: size_t)
      requires Valid()
      ensures CanFitBytes(dataSize, additional) <==> CanFit(Settings(), contents, dataSize, additional)
    {
      EmptyTests();
    }

    /** The bytes a batch will take: a header for each message and all the payloads. */
    static method TotalSize(msgs: seq<Message>) returns (totalSize: size_t)
      requires FrameBytes(msgs) < SIZE_LIMIT
      ensures totalSize == FrameBytes(msgs)
    {
      totalSize := |msgs| * HEADER_BYTES;
      for i := 0 to |msgs|
        invariant totalSize == FrameBytes(msgs[..i]) + HEADER_BYTES * (|msgs| - i)
      {
        FramesSnoc(msgs[..i], msgs[i]);
        assert msgs[..i] + [msgs[i]] == msgs[..i + 1];
        FrameBytesConcat(msgs[..i + 1], msgs[i + 1..]);
        assert msgs[..i + 1] + msgs[i + 1..] == msgs;
        totalSize := totalSize + |msgs[i]|;
      }
      assert msgs[..|msgs|] == msgs;
    }

    /** One turn of the batch-writing loop: a size header, then the payload. */
    method StoreOne(m: Message)
      requires Valid()
      requires CanFit(Settings(), contents, HEADER_BYTES + |m|, 1)
      modifies this`tail, this`size, this`numElem, this`contents, buffer
      ensures Valid()
      ensures contents == old(contents) + [m]
    {
      EmptyTests();
      FramesSnoc(contents, m);
      var header := ToBytes(|m|, HEADER_BYTES);
      ghost var live := Live();
      CircularBufferWrite(header);
      SizeOfLive();
      CircularBufferWrite(m);
      ConcatAssociates(live, header, m);
      numElem := numElem + 1;
      contents := contents + [m];
    }

    /** The batch-writing loop: the one test before it makes every write in it fit. */
    method StoreAll(msgs: seq<Message>)
      requires Valid()
      requires CanFit(Settings(), contents, FrameBytes(msgs), |msgs|)
      modifies this`tail, this`size, this`numElem, this`contents, buffer
      ensures Valid()
      ensures contents == old(contents) + msgs
      ensures HoldsMessages(Live(), contents)
    {
      ghost var q := contents;
      assert msgs[0..] == msgs;
      for i := 0 to |msgs|
        invariant Valid()
        invariant contents == q + msgs[..i]
        invariant FrameBytes(contents) + FrameBytes(msgs[i..]) <= maxSizeBytes
        invariant |contents| + |msgs| - i <= maxSize
      {
        BatchStep(contents, q, msgs, i);
        StoreOne(msgs[i]);
      }
      assert msgs[..|msgs|] == msgs;
      LiveHoldsMessages();
    }

    static lemma BatchStep(now: seq<Message>, q: seq<Message>, msgs: seq<Message>, i: nat)
      requires i < |msgs| && now == q + msgs[..i]
      ensures now + [msgs[i]] == q + msgs[..i + 1]
      ensures FrameBytes(msgs[i..]) == HEADER_BYTES + |msgs[i]| + FrameBytes(msgs[i + 1..])
      ensures FrameBytes(now + [msgs[i]]) == FrameBytes(now) + HEADER_BYTES + |msgs[i]|
    {
      assert msgs[i..][1..] == msgs[i + 1..];
      FrameBytesConcat(now, [msgs[i]]);
    }

    /** The ring holds the messages of `contents` byte by byte. */
    lemma LiveHoldsMessages()
      requires Valid()
      ensures HoldsMessages(Live(), contents)
    {
      SizeIsZero();
      FramesHold(Live(), contents);
    }

    lemma SizeOfLive()
      requires RingValid()
      ensures |Live()| == size
    {
    }

    /** Reads the next message's size without removing anything. */
    method PeekSize() returns (msgSize: size_t)
      requires Valid() && contents != []
      modifies this`head, this`size
      ensures Valid() && head == old(head) && size == old(size)
      ensures msgSize == |contents[0]|
    {
      EmptyTests();
      SizeOfLive();
      var header := new byte[HEADER_BYTES];
      CircularBufferRead(header, 0, HEADER_BYTES, false);
      ghost var m := contents[0];
      assert header[..] == Frames(contents)[..HEADER_BYTES] == ToBytes(|m|, HEADER_BYTES);
      HeaderRoundTrip(|m|);
      msgSize := FromBytes(header[..]);
    }

    /** Moves the next frame, header included, behind the frames already in `msgBuffer`;
        `initial` is what the caller's buffer held at first and `done` what was delivered. */
    method TakeOne(msgBuffer: array<byte>, at: size_t, msgSize: size_t,
                   ghost initial: seq<byte>, ghost done: seq<byte>)
      requires Valid() && contents != [] && msgSize == |contents[0]|
      requires msgBuffer != buffer && at == |done|
      requires at + HEADER_BYTES + msgSize <= msgBuffer.Length == |initial|
      requires msgBuffer[..] == done + initial[at..]
      modifies this`head, this`size, this`numElem, this`contents, msgBuffer
      ensures Valid()
      ensures contents == old(contents)[1..]
      ensures msgBuffer[..] == (done + Frame(old(contents)[0])) + initial[at + HEADER_BYTES + msgSize..]
    {
      EmptyTests();
      ghost var frame, rest := Frame(contents[0]), Frames(contents[1..]);
      assert Live() == frame + rest;
      ghost var before := msgBuffer[..];
      var frameSize: size_t := HEADER_BYTES + msgSize;
      CircularBufferRead(msgBuffer, at, frameSize, true);
      AppendFrame(initial, done, frame, msgBuffer[..]);
      numElem := numElem - 1;
      contents := contents[1..];
    }

    /** One lock hold of `queue_get`: from the call, or from a wake-up, to the return or the
        next sleep. */
    method GetHold(msgBuffer: array<byte>, lim: Limits, block: bool, remaining: TimeVal, resumed: bool)
      returns (outcome: GetOutcome, messagesRead: size_t, bytesRead: size_t, messagesSize: size_t,
               signal: Signal)
      requires Valid() && remaining.Normal()
      requires msgBuffer != buffer && msgBuffer.Length == lim.bufferSize
      modifies this`head, this`size, this`numElem, this`contents, msgBuffer
      modifies this`notEmptyWaiters
      ensures Valid()
      ensures GetEffect(outcome, contents, signal)
           == FifoSpec.GetHold(old(contents), old(notEmptyWaiters) - (if resumed then 1 else 0),
                               notFullWaiters, lim, block && Positive(remaining))
      // Only an empty queue makes a caller wait or go away with Q_EMPTY.
      ensures old(contents) == [] ==>
                && outcome == (if block && Positive(remaining) then GetSleep else Finished(Empty, 0))
                && messagesRead == bytesRead == messagesSize == 0
                && contents == [] && msgBuffer[..] == old(msgBuffer[..]) && signal == NoSignal
      ensures old(contents) != [] ==>
                && messagesRead <= |old(contents)| && contents == old(contents)[messagesRead..]
                && outcome.Finished? && outcome.taken == messagesRead
                && Reads(old(contents), lim, old(msgBuffer[..]), outcome.status,
                         messagesRead, bytesRead, messagesSize, msgBuffer[..])
                && (signal == WakeProducer <==> messagesRead > 0 && notFullWaiters > 0)
                && (signal == WakeConsumer <==> !(messagesRead > 0 && notFullWaiters > 0)
                                                && contents != [] && notEmptyWaiters > 0)
      ensures notEmptyWaiters == old(notEmptyWaiters) - (if resumed then 1 else 0)
                                                      + (if outcome.GetSleep? then 1 else 0)
    {
      messagesRead, bytesRead, messagesSize, signal := 0, 0, 0, NoSignal;
      notEmptyWaiters := notEmptyWaiters - if resumed then 1 else 0;
      SizeIsZero();
      if size <= 0 {
        outcome := WaitOrReturnEmpty(block, remaining);
      } else {
        var status;
        status, messagesRead, bytesRead, messagesSize, signal :=
          ReadAndSignal(msgBuffer, lim, block && Positive(remaining));
        outcome := Finished(status, messagesRead);
      }
    }

    /** The loop of `queue_get` that waits for a message, up to the return or the wait. */
    method WaitOrReturnEmpty(block: bool, remaining: TimeVal) returns (outcome: GetOutcome)
      requires remaining.Normal()
      modifies this`notEmptyWaiters
      ensures outcome == if block && Positive(remaining) then GetSleep else Finished(Empty, 0)
      ensures notEmptyWaiters == old(notEmptyWaiters) + if outcome.GetSleep? then 1 else 0
    {
      if !block || !Positive(remaining) {
        return Finished(Empty, 0);
      }
      notEmptyWaiters := notEmptyWaiters + 1;
      outcome := GetSleep;
    }

    /** What `queue_get` does once there is a message: the reading loop and its one signal. */
    method ReadAndSignal(msgBuffer: array<byte>, lim: Limits, ghost mayWait: bool)
      returns (status: GetStatus, messagesRead: size_t, bytesRead: size_t, messagesSize: size_t,
               signal: Signal)
      requires Valid() && contents != []
      requires msgBuffer != buffer && msgBuffer.Length == lim.bufferSize
      modifies this`head, this`size, this`numElem, this`contents, msgBuffer
      ensures Valid() && messagesRead <= |old(contents)| && contents == old(contents)[messagesRead..]
      ensures GetEffect(Finished(status, messagesRead), contents, signal)
           == FifoSpec.GetHold(old(contents), notEmptyWaiters, notFullWaiters, lim, mayWait)
      ensures signal == WakeProducer <==> messagesRead > 0 && notFullWaiters > 0
      ensures signal == WakeConsumer <==> !(messagesRead > 0 && notFullWaiters > 0)
                                          && contents != [] && notEmptyWaiters > 0
      ensures Reads(old(contents), lim, old(msgBuffer[..]), status,
                    messagesRead, bytesRead, messagesSize, msgBuffer[..])
    {
      status, messagesRead, bytesRead, messagesSize := TakeGreedily(msgBuffer, lim);
      signal :=
        if messagesRead > 0 && notFullWaiters > 0 then WakeProducer
        else if size > 0 && notEmptyWaiters > 0 then WakeConsumer
        else NoSignal;
    }

    /** One turn of the reading loop: charges the next frame to `messagesSize` and, unless that
        is more than the caller's buffer, moves it there. */
    method TryTake(msgBuffer: array<byte>, bytesRead: size_t, messagesSize: size_t,
                   ghost q: seq<Message>, ghost initial: seq<byte>, ghost k: nat)
      returns (tooSmall: bool, newSize: size_t)
      requires Valid() && k < |q| && contents == q[k..] && FrameBytes(q) <= maxSizeBytes
      requires msgBuffer != buffer && messagesSize == bytesRead && msgBuffer.Length < SIZE_LIMIT
      requires Delivered(q, initial, k, bytesRead, msgBuffer[..])
      modifies this`head, this`size, this`numElem, this`contents, msgBuffer
      ensures Valid() && (size == 0 <==> contents == [])
      ensures newSize == FrameBytes(q[..k + 1])
      ensures tooSmall <==> msgBuffer.Length < newSize
      ensures tooSmall ==> contents == q[k..] && msgBuffer[..] == old(msgBuffer[..])
      ensures !tooSmall ==> contents == q[k + 1..] && Delivered(q, initial, k + 1, newSize, msgBuffer[..])
    {
      PrefixGrows(q, k);
      var msgSize := PeekSize();
      newSize := messagesSize + (HEADER_BYTES + msgSize);
      tooSmall := msgBuffer.Length < newSize;
      if !tooSmall {
        TakeOne(msgBuffer, bytesRead, msgSize, initial, Frames(q[..k]));
      }
      SizeIsZero();
    }

    /** The batched reading of `queue_get`, as its caller sees it. */
    method TakeGreedily(msgBuffer: array<byte>, lim: Limits)
      returns (status: GetStatus, messagesRead: size_t, bytesRead: size_t, messagesSize: size_t)
      requires Valid() && contents != []
      requires msgBuffer != buffer && msgBuffer.Length == lim.bufferSize
      modifies this`head, this`size, this`numElem, this`contents, msgBuffer
      ensures Valid() && (size == 0 <==> contents == [])
      ensures messagesRead == GreedyLength(old(contents), lim)
      ensures contents == old(contents)[messagesRead..]
      ensures status == if StopsForBuffer(old(contents), lim, messagesRead) then TooSmall else Success
      ensures Reads(old(contents), lim, old(msgBuffer[..]), status,
                    messagesRead, bytesRead, messagesSize, msgBuffer[..])
    {
      ghost var q, buf := contents, msgBuffer[..];
      SizeIsZero();
      status, messagesRead, bytesRead, messagesSize := ReadingLoop(msgBuffer, lim);
      DeliveredReads(q, lim, buf, status, messagesRead, bytesRead, messagesSize, msgBuffer[..]);
    }

    /** The loop itself, in terms of the frames. */
    method ReadingLoop(msgBuffer: array<byte>, lim: Limits)
      returns (status: GetStatus, messagesRead: size_t, bytesRead: size_t, messagesSize: size_t)
      requires Valid() && contents != []
      requires msgBuffer != buffer && msgBuffer.Length == lim.bufferSize
      modifies this`head, this`size, this`numElem, this`contents, msgBuffer
      ensures Valid() && (size == 0 <==> contents == [])
      ensures messagesRead == GreedyLength(old(contents), lim)
      ensures contents == old(contents)[messagesRead..]
      ensures status == if StopsForBuffer(old(contents), lim, messagesRead) then TooSmall else Success
      ensures Delivered(old(contents), old(msgBuffer[..]), messagesRead, bytesRead, msgBuffer[..])
      ensures messagesSize == ReportedSize(old(contents), lim)
    {
      ghost var q, buf := contents, msgBuffer[..];
      status, messagesRead, bytesRead, messagesSize := Success, 0, 0, 0;
      assert q[0..] == q;
      NothingDelivered(q, buf);
      SizeIsZero();
      while messagesRead < lim.maxMessages && bytesRead < lim.maxBytes
        invariant Valid() && contents != []
        invariant messagesRead < |q| && contents == q[messagesRead..]
        invariant status == Success && messagesSize == bytesRead
        invariant Delivered(q, buf, messagesRead, bytesRead, msgBuffer[..])
        invariant GreedyReaches(q, lim, messagesRead)
        invariant FrameBytes(q) <= maxSizeBytes
        decreases |q| - messagesRead
      {
        var tooSmall;
        tooSmall, messagesSize := TryTake(msgBuffer, bytesRead, messagesSize, q, buf, messagesRead);
        GreedyTurn(q, lim, messagesRead);
        if tooSmall {
          status := TooSmall;
          break;
        }
        bytesRead := messagesSize;
        messagesRead := messagesRead + 1;
        if size <= 0 {
          break;
        }
      }
      if status == Success {
        GreedyEnds(q, lim, messagesRead);
      }
    }
  }

  /** `now` is the buffer `buf` after the first `k` frames of `q`, `bytes` long, went into it. */
  ghost predicate Delivered(q: seq<Message>, buf: seq<byte>, k: nat, bytes: nat, now: seq<byte>) {
    && k <= |q|
    && bytes == FrameBytes(q[..k]) <= |buf|
    && now == Frames(q[..k]) + buf[bytes..]
  }

  /** What a get that met the messages of `q` tells its caller: it took `k` of them, as its limits
      allow; they lie in its buffer one behind the other, and nothing else there has changed; and
      the size it reports is what it read or, if that was too small, what the next would take. */
  ghost predicate Reads(q: seq<Message>, lim: Limits, buf: seq<byte>,
                        status: GetStatus, k: nat, bytes: nat, size: nat, now: seq<byte>)
  {
    && StopsAt(q, lim, k)
    && bytes == 8 * k + PayloadBytes(q[..k]) <= |buf| == |now|
    && HoldsMessages(now, q[..k]) && now[bytes..] == buf[bytes..]
    && status == (if lim.bufferSize < size then TooSmall else Success)
    && (status == Success ==> size == bytes)
    && (status == TooSmall ==> k < |q| && size == 8 * (k + 1) + PayloadBytes(q[..k + 1]))
  }

  lemma DeliveredReads(q: seq<Message>, lim: Limits, buf: seq<byte>,
                       status: GetStatus, k: nat, bytes: nat, size: nat, now: seq<byte>)
    requires Delivered(q, buf, k, bytes, now) && k == GreedyLength(q, lim)
    requires FrameBytes(q) < SIZE_LIMIT && lim.bufferSize == |buf|
    requires status == if StopsForBuffer(q, lim, k) then TooSmall else Success
    requires size == ReportedSize(q, lim)
    ensures Reads(q, lim, buf, status, k, bytes, size, now)
  {
    GreedyStops(q, lim);
    PrefixBytes(q, k, |q|);
    assert q[..|q|] == q;
    FramesHold(now, q[..k]);
    if k < |q| {
      PrefixBytes(q, k + 1, |q|);
      GreedyIsExact(q, lim, k);
    }
  }

  lemma NothingDelivered(q: seq<Message>, buf: seq<byte>)
    ensures Delivered(q, buf, 0, 0, buf)
  {
    assert q[..0] == [] && buf == Frames([]) + buf[0..];
  }

  /** The greedy reader takes the first `k` messages and then decides as it does at `k`. */
  ghost predicate GreedyReaches(q: seq<Message>, lim: Limits, k: nat) {
    k <= |q| && GreedyLength(q, lim) == GreedyFrom(q, lim, k)
  }

  lemma GreedyTurn(q: seq<Message>, lim: Limits, k: nat)
    requires GreedyReaches(q, lim, k) && k < |q| && Wanted(q, lim, k)
    ensures Fits(q, lim, k + 1) ==> GreedyReaches(q, lim, k + 1)
    ensures !Fits(q, lim, k + 1) ==> GreedyLength(q, lim) == k && StopsForBuffer(q, lim, k)
    ensures !Fits(q, lim, k + 1) ==> ReportedSize(q, lim) == FrameBytes(q[..k + 1])
  {
  }

  lemma GreedyEnds(q: seq<Message>, lim: Limits, k: nat)
    requires GreedyReaches(q, lim, k) && (k == |q| || !Wanted(q, lim, k))
    ensures GreedyLength(q, lim) == k && !StopsForBuffer(q, lim, k)
    ensures ReportedSize(q, lim) == FrameBytes(q[..k])
  {
  }

  lemma PrefixGrows(q: seq<Message>, k: nat)
    requires k < |q|
    ensures q[k..][0] == q[k] && q[k..][1..] == q[k + 1..]
    ensures Frames(q[..k + 1]) == Frames(q[..k]) + Frame(q[k])
    ensures FrameBytes(q[..k + 1]) == FrameBytes(q[..k]) + HEADER_BYTES + |q[k]| <= FrameBytes(q)
  {
    assert q[..k + 1] == q[..k] + [q[k]] && q == q[..k + 1] + q[k + 1..];
    FramesSnoc(q[..k], q[k]);
    FrameBytesConcat(q[..k + 1], q[k + 1..]);
  }

  /** One more frame behind the frames already delivered. */
  lemma AppendFrame(buf: seq<byte>, done: seq<byte>, frame: seq<byte>, after: seq<byte>)
    requires |done| + |frame| <= |buf|
    requires var before := done + buf[|done|..];
             after == before[..|done|] + frame + before[|done| + |frame|..]
    ensures after == (done + frame) + buf[|done| + |frame|..]
  {
  }
}
