# Verified model of faster-fifo

This project models the shared-memory message queue of faster-fifo and four algorithms of the
C++ test library that is kept in the repository with it, and proves what they promise.

**The queue** (`bytes`, `fifo_spec`, `queue`, `draining`, `timer`). Messages lie in a circular byte
buffer as frames of an 8-byte size and a payload; a frame, or even its size header, may wrap. The
class `Queue` has the source's fields and a real byte array, and its methods are proved to do on
the bytes what `FifoSpec` says on a sequence of messages. A method covers one lock hold: the code
between taking the mutex (or waking up inside the wait) and releasing it (or going to sleep).

**The protocol** (`protocol`, `protocol_safety`, `protocol_wakeups`, `protocol_fitters`,
`protocol_time`, `protocol_progress`, `protocol_witness`). Any number of threads make any number of calls; each lock
hold is one step, and a wait splits a call in two. Blocked threads wake by a signal, a timeout or
spuriously. The steps use the same `FifoSpec` functions the class is proved against. The results are
over all runs: first-in first-out delivery, exact waiter counters, exactly when the wake-up hand-off
leaves somebody asleep with nobody awake to help, that only blocking calls sleep and never beyond
their timeout, and that a chain of wake-ups always comes to rest within three lock holds per
unfinished call.

**Bipartite matching** (`matching`, `match_matrix`, `pairing`). The in-place recursive augmenting
search, its single pass, the matcher decision built on it, and the matrix used as a counter.

**Expectation prerequisites** (`reachability`, `expectations`, `registrations`). The two graph walks
over expectation objects, the two operations that add edges, and what any history of registrations
makes of the graph.

**Simple regular expressions** (`regex_syntax`, `regex_match`) and the **UTF-8 validator** (`utf8`),
each against an independent definition of what it should accept. (`sets` counts finite sets.)

Three of the results say that the code does not do what one might expect of it, and when:

- A consumer can be left asleep beside a message with nobody awake. It happens exactly when the last
  awakened thread is a producer that has waited and gives up with Q_FULL (line 185 of
  `faster_fifo.cpp` returns without signalling). `ProtocolWitness.StrandedConsumerIsReachable` is such
  a run; `ProtocolWakeups.ConsumersServedOverRuns` shows there is no other way.
- A producer can be left asleep although its request fits. `ProtocolFitters.FittersServedOverRuns`
  shows that this happens exactly when the last awakened thread runs into one of five branches, each
  given by its guard before the lock hold:
  1. a put that does not fit goes back to sleep while no other thread is counted as a waiting consumer
     (lines 188-191 signal consumers only);
  2. a put that does not fit runs out of time (line 185 returns without signalling);
  3. a put stores and leaves room for exactly one 8-byte header, while a producer sleeps whose whole
     request is one empty message: line 208 asks for `MIN_MSG_SIZE`, 9 bytes, before it passes the
     wake-up on, but an empty message needs only 8;
  4. a get meets messages and takes none, because a limit is 0 or its buffer is smaller than the first
     frame, while no other thread is counted as a waiting consumer (lines 268-278);
  5. a get meets an empty queue (lines 231-235 signal nobody).

  `ProtocolWitness.FittingProducerCanSleepOn` is a run of the first kind and
  `ProtocolWitness.EmptyMessageIsOverlooked` one of the third.
- `RE::FullMatch` is documented to match the entire string. A pattern that ends in an escaped dollar
  sign gets no closing anchor, so it can match a proper prefix;
  `RegexMatch.FullMatchIsWholeMatch` shows that these are the only patterns for which it does not
  mean the entire string, and `RegexMatch.EscapedDollarMatchesMore` is the smallest one.

Assumptions: `sizeof(size_t)` is 8 and the bytes of a size lie least significant first;
`max_size_bytes` is above 0 and below half of the `size_t` range; the size of a batch plus
`max_size_bytes`, and its count plus `maxsize`, do not exceed the `size_t` range.
Under these every sum the queue stores is proved not to wrap. The buffer pointer that every call passes is a field, since all calls
on one queue must pass the same memory. A signal on a condition variable wakes one thread asleep on
it if there is one. A string matched by a regular expression is shorter than the largest `size_t`.

## Model

| member | source | states |
|---|---|---|
| `Bytes.HeaderRoundTrip` | cpp_faster_fifo/cpp_lib/faster_fifo.cpp:197 | a size header read back from the buffer is the size that was written, for every size_t |
| `Bytes.BytesAreDigits` | cpp_faster_fifo/cpp_lib/faster_fifo.cpp:197 | byte i of a size header is digit i of the size to the base 256: the least significant byte has the lowest address |
| `FifoSpec.FramesInjective` | cpp_faster_fifo/cpp_lib/faster_fifo.cpp:195-200 | the bytes of a queue determine its messages: frames can be cut apart in only one way |
| `FifoSpec.FramesHold` | cpp_faster_fifo/cpp_lib/faster_fifo.cpp:195-200 | in the frames of a queue, every message lies at its offset: eight bytes that read as its length, then its own bytes in their order |
| `FifoSpec.CanFitIsRoom` | cpp_faster_fifo/cpp_lib/faster_fifo.cpp:46-51 | the test for room is true exactly when 8 + length over all the messages, and their number, stay within both capacities |
| `FifoSpec.PutHoldDecides` | cpp_faster_fifo/cpp_lib/faster_fifo.cpp:182-214 | when a put stores, sleeps or gives up, and whom it signals, in terms of room for its batch and for one more message of one byte |
| `ByteQueue.Queue.constructor` | cpp_faster_fifo/cpp_lib/faster_fifo.cpp:24-36 | a new queue is empty, in order, and has no waiters |
| `ByteQueue.Queue.EmptyTests` | cpp_faster_fifo/cpp_lib/faster_fifo.cpp:231-262 | `size` is the sum of 8 + length over the messages; it is 0 exactly when there is no message, as is `num_elem`; both capacities hold |
| `ByteQueue.Queue.CircularBufferWrite` | cpp_faster_fifo/cpp_lib/faster_fifo.cpp:55-71 | a fitting write appends exactly its bytes behind the live bytes, across the wrap or ending on the edge, and keeps head, tail and size consistent; no size_t sum wraps and the asserted conditions hold |
| `ByteQueue.Queue.CircularBufferRead` | cpp_faster_fifo/cpp_lib/faster_fifo.cpp:73-96 | a read copies exactly the first live bytes to the given place and nothing else; popping drops them, peeking changes nothing |
| `ByteQueue.Queue.StoreAll` | cpp_faster_fifo/cpp_lib/faster_fifo.cpp:195-204 | the one test before the loop makes every header and payload write in it fit; the batch is appended whole and in order, and the ring holds every message byte by byte behind its length |
| `ByteQueue.Queue.PutHold` | cpp_faster_fifo/cpp_lib/faster_fifo.cpp:176-216 | one lock hold of a put stores exactly when there is room for the batch; without room it returns Q_FULL or, if it may block and has time left, sleeps, and leaves the ring untouched; whom it signals; the ring holds every message byte by byte; the waiter counter is decremented on resumption and incremented before sleeping; all of it is what the message-level hold says |
| `ByteQueue.Queue.TakeGreedily` | cpp_faster_fifo/cpp_lib/faster_fifo.cpp:238-266 | the reading loop stops where the limits stop it; the caller's buffer holds every message taken, byte by byte behind its length, and is otherwise as before; `messages_size` is `bytes_read`, plus the next frame exactly when that is more than the buffer |
| `ByteQueue.Queue.GetHold` | cpp_faster_fifo/cpp_lib/faster_fifo.cpp:226-281 | one lock hold of a get on an empty queue sleeps if it may block and has time left, else returns Q_EMPTY; otherwise it reads as `TakeGreedily` does, with TooSmall exactly when the buffer is below the reported size; whom it signals; all of it is what the message-level hold says |
| `FifoSpec.GreedyIsExact` | cpp_faster_fifo/cpp_lib/faster_fifo.cpp:239-266 | exactly one number of messages is greedy: the limits allow every earlier one, and the next is absent, not asked for, or too large for the buffer; that number is what a get takes |
| `FifoSpec.GreedyStopsThere` | cpp_faster_fifo/cpp_lib/faster_fifo.cpp:239-266 | a get takes k messages exactly when k is where its limits stop it: messages asked for, bytes asked for, queue emptied, or the next one too large for the buffer |
| `Draining.OnlyBufferRefuses` | cpp_faster_fifo/cpp_lib/faster_fifo.cpp:247-250 | with limits of at least 1, a get on a non-empty queue delivers nothing exactly when the first frame exceeds the buffer, and then says so |
| `Draining.RetryDelivers` | cpp_faster_fifo/cpp_lib/faster_fifo.cpp:245-250 | after Q_MSG_BUFFER_TOO_SMALL a buffer of the reported size is enough for the next call to deliver a message |
| `Draining.NothingIsLost` | cpp_faster_fifo/cpp_lib/faster_fifo.cpp:238-266 | what any series of gets delivered followed by what is left is the queue it started from |
| `Draining.DrainsTheQueue` | cpp_faster_fifo/cpp_lib/faster_fifo.cpp:238-266 | a consumer that grows its buffer as told empties any queue within two calls per message, in order |
| `Protocol.RunMovesThreads` | cpp_faster_fifo/cpp_lib/faster_fifo.cpp:158-282 | how one lock hold moves threads between asleep and awake on either side: at most one signalled, the runner out of its wait or into one |
| `ProtocolSafety.StepKeepsCounters` | cpp_faster_fifo/cpp_lib/faster_fifo.cpp:158-160 | each waiter counter equals the threads asleep plus the threads awakened but not yet run |
| `ProtocolSafety.StepKeepsInvariant` | cpp_faster_fifo/cpp_lib/faster_fifo.cpp:172-282 | every step keeps capacity, conservation of messages, exact counters, and that only non-empty puts wait |
| `ProtocolSafety.RunKeepsInvariant` | cpp_faster_fifo/cpp_lib/faster_fifo.cpp:172-282 | the same in every state of every run |
| `ProtocolSafety.FifoOverRuns` | cpp_faster_fifo/cpp_lib/faster_fifo.cpp:172-282 | over every interleaving, what gets delivered in lock order followed by the queue is what puts stored in lock order |
| `ProtocolSafety.BatchStaysContiguous` | cpp_faster_fifo/cpp_lib/faster_fifo.cpp:195-204 | the messages of one stored batch are neighbours in the delivery order |
| `ProtocolSafety.ProducerOrderKept` | cpp_faster_fifo/cpp_lib/faster_fifo.cpp:172-282 | restricted to one producer, the delivery order is the order of its puts |
| `ProtocolTime.StuckCallsWait` | cpp_faster_fifo/cpp_lib/faster_fifo.cpp:181-236 | a call that gets the lock ends up asleep, with exactly the time it has left, if it lacks room or a message, may block and has time left; in every other case it returns |
| `ProtocolTime.PutStoresAllOrNothing` | cpp_faster_fifo/cpp_lib/faster_fifo.cpp:182-204 | a put with room stores its whole batch at the back; without room it changes nothing |
| `ProtocolTime.GetTakesWhatItMay` | cpp_faster_fifo/cpp_lib/faster_fifo.cpp:238-266 | a get that meets messages takes and delivers them from the front up to where its limits stop it |
| `ProtocolTime.TimeIsCharged` | cpp_faster_fifo/cpp_lib/faster_fifo.cpp:181-236 | over every run, what a call has left is its timeout less the time it spent inside its waits |
| `ProtocolTime.SleepersHaveTime` | cpp_faster_fifo/cpp_lib/faster_fifo.cpp:184-191 | in every reachable state whoever sleeps made a blocking call and has waited for less than its timeout |
| `ProtocolTime.TimedOutReturns` | cpp_faster_fifo/cpp_lib/faster_fifo.cpp:181-236 | a sleeper can always leave its wait, and once its time is used up the call then returns |
| `ProtocolWakeups.StepServesConsumers` | cpp_faster_fifo/cpp_lib/faster_fifo.cpp:182-278 | every step keeps "messages waiting and a consumer asleep implies somebody awake", except exactly when the last awakened thread is a producer that gives up with Q_FULL beside waiting messages and a sleeping consumer |
| `ProtocolWakeups.ConsumersServedOverRuns` | cpp_faster_fifo/cpp_lib/faster_fifo.cpp:182-278 | a run never strands a consumer if and only if it contains no such step |
| `ProtocolWakeups.StepServesProducers` | cpp_faster_fifo/cpp_lib/faster_fifo.cpp:182-278 | every step keeps "queue empty and a producer asleep implies a producer awake", except exactly when an oversized put meets the empty queue with no other producer awake |
| `ProtocolWakeups.ProducersServedOverRuns` | cpp_faster_fifo/cpp_lib/faster_fifo.cpp:182-278 | a run never strands a producer on an empty queue if and only if it contains no such step |
| `ProtocolWakeups.NoMutualSleep` | cpp_faster_fifo/cpp_lib/faster_fifo.cpp:182-278 | in runs without oversized puts and without give-ups after waiting, once nobody awakened is left to run, a sleeping consumer means an empty queue and no sleeping producer |
| `ProtocolFitters.SilentPut` | cpp_faster_fifo/cpp_lib/faster_fifo.cpp:182-214 | a put leaves a sleeping producer whose request fits without anybody awake exactly under the guards of three branches: still too large and back to sleep, still too large and out of time, or stored with room for one empty message only |
| `ProtocolFitters.SilentGet` | cpp_faster_fifo/cpp_lib/faster_fifo.cpp:231-278 | a get does so exactly when it meets an empty queue, or takes nothing because a limit is 0 or the buffer is below the first frame |
| `ProtocolFitters.OnlyEmptyMessagesAreMissed` | cpp_faster_fifo/cpp_lib/faster_fifo.cpp:206-214 | the test for room before passing a wake-up on misses a sleeping producer that would fit exactly when 8 bytes and a place are left and its request is one empty message |
| `ProtocolFitters.StepServesFitters` | cpp_faster_fifo/cpp_lib/faster_fifo.cpp:182-278 | every step keeps "a sleeping producer whose request fits implies somebody awake", except exactly when the last awakened thread meets one of the five guards |
| `ProtocolFitters.FittersServedOverRuns` | cpp_faster_fifo/cpp_lib/faster_fifo.cpp:182-278 | a run never strands a producer whose request fits if and only if its last awakened thread never meets one of the five guards |
| `ProtocolFitters.PassesOn` | cpp_faster_fifo/cpp_lib/faster_fifo.cpp:206-269 | with a producer asleep, a put that fits with room for one more smallest message, and a get whose limits and buffer allow the first message, always leave somebody awake |
| `ProtocolProgress.RunSpendsEnergy` | cpp_faster_fifo/cpp_lib/faster_fifo.cpp:182-278 | every lock hold lowers a measure of the threads still to run, although it may wake one more |
| `ProtocolProgress.WakeUpsDieOut` | cpp_faster_fifo/cpp_lib/faster_fifo.cpp:182-278 | between new calls, timeouts and spurious wake-ups there are at most three lock holds per unfinished call, under every schedule |
| `ProtocolProgress.RunnableCanRun` | cpp_faster_fifo/cpp_lib/faster_fifo.cpp:182-278 | a thread that is not asleep can always take its lock hold, whatever the clock says |
| `ProtocolProgress.RunsToRest` | cpp_faster_fifo/cpp_lib/faster_fifo.cpp:182-278 | every reachable state can be run to one in which nobody is left to run, within that bound |
| `ProtocolWitness.StrandedConsumerIsReachable` | cpp_faster_fifo/cpp_lib/faster_fifo.cpp:184-269 | a concrete run, all requests fitting an empty queue, that ends with a consumer asleep beside a message and nobody awake |
| `ProtocolWitness.StrandedProducerIsReachable` | cpp_faster_fifo/cpp_lib/faster_fifo.cpp:182-191 | any oversized blocking put falls asleep on an empty queue |
| `ProtocolWitness.FittingProducerCanSleepOn` | cpp_faster_fifo/cpp_lib/faster_fifo.cpp:182-269 | a concrete run that ends with a producer asleep although its request fits, and nobody awake: a woken producer that goes back to sleep signals consumers only |
| `ProtocolWitness.EmptyMessageIsOverlooked` | cpp_faster_fifo/cpp_lib/faster_fifo.cpp:206-214 | a concrete run that ends with eight bytes free, a producer asleep with one empty message, and nobody awake |
| `Timer.MicrosToTimeVal` | cpp_faster_fifo/cpp_lib/faster_fifo.cpp:142-143 | splitting a microsecond count keeps it and normalises |
| `Timer.Positive` | cpp_faster_fifo/cpp_lib/faster_fifo.cpp:168-170 | on normalised values, positive exactly when the total is above 0 |
| `Timer.Deadline` | cpp_faster_fifo/cpp_lib/faster_fifo.cpp:149-156 | the nanosecond deadline is the clock plus the waiting time, with `tv_nsec` below 10^9 |
| `Timer.Remaining` | cpp_faster_fifo/cpp_lib/faster_fifo.cpp:148-166 | what a wait returns is the waiting time minus the clock time the wait took |
| `Timer.TimeIsConserved` | cpp_faster_fifo/cpp_lib/faster_fifo.cpp:181-236 | over any number of retries, initial minus remaining time is the time spent inside waits |
| `Timer.RetriesAreBounded` | cpp_faster_fifo/cpp_lib/faster_fifo.cpp:181-236 | if every wait advances the clock, a loop waits at most once per initial microsecond |
| `Matching.MaxBipartiteMatchState.TryAugment` | cpp_faster_fifo/cpp_lib/googletest/googletest-1.10.0/googlemock/src/gmock-matchers.cc:166-206 | the recursive search terminates; success relinks along real edges, matches its start and one free right node more, keeps matched nodes matched and spares every closed set; failure changes nothing and has seen every neighbour of everything it reached; no left node is explored twice |
| `Matching.MaxBipartiteMatchState.TryEdge` | cpp_faster_fifo/cpp_lib/googletest/googletest-1.10.0/googlemock/src/gmock-matchers.cc:187-203 | the search over one available edge: the same over what was seen before it |
| `Matching.ExploresOn` | cpp_faster_fifo/cpp_lib/googletest/googletest-1.10.0/googlemock/src/gmock-matchers.cc:173-175 | a left node is behind at most one right node, so what a later edge explores was not explored before |
| `Matching.LinkTaken` | cpp_faster_fifo/cpp_lib/googletest/googletest-1.10.0/googlemock/src/gmock-matchers.cc:198-203 | taking a right node over from a left node that found another partner repairs the matching, all but the old partner of the start |
| `Matching.MaxBipartiteMatchState.AugmentAll` | cpp_faster_fifo/cpp_lib/googletest/googletest-1.10.0/googlemock/src/gmock-matchers.cc:145-153 | after one pass every free left node lies in a closed set; the check that the next node is free never fails |
| `Matching.DeadEndsClose` | cpp_faster_fifo/cpp_lib/googletest/googletest-1.10.0/googlemock/src/gmock-matchers.cc:145-153 | a failed search adds its start and everything it reached to the closed set |
| `Matching.ChargesAreDistinct` | cpp_faster_fifo/cpp_lib/googletest/googletest-1.10.0/googlemock/src/gmock-matchers.cc:135-144 | each edge of any other matching can be charged to a different pair of the one found |
| `Matching.ClosedSetBounds` | cpp_faster_fifo/cpp_lib/googletest/googletest-1.10.0/googlemock/src/gmock-matchers.cc:135-144 | with every free left node inside a closed set no matching is larger: one look at each node is enough |
| `Matching.MaxBipartiteMatchState.Compute` | cpp_faster_fifo/cpp_lib/googletest/googletest-1.10.0/googlemock/src/gmock-matchers.cc:130-161 | the result is a matching, and no matching of the graph has more edges |
| `Matching.FindMaxBipartiteMatching` | cpp_faster_fifo/cpp_lib/googletest/googletest-1.10.0/googlemock/src/gmock-matchers.cc:228-230 | the same for a fresh state on every graph |
| `Matching.PairListIsMatching` | cpp_faster_fifo/cpp_lib/googletest/googletest-1.10.0/googlemock/src/gmock-matchers.cc:154-160 | the list built from `left_` is a matching without repetitions |
| `Pairing.CoverageIsSize` | cpp_faster_fifo/cpp_lib/googletest/googletest-1.10.0/googlemock/src/gmock-matchers.cc:424-446 | a matching covers all matchers exactly when it has as many pairs as matchers, and likewise for elements |
| `Pairing.SatisfiableMeansAssignment` | cpp_faster_fifo/cpp_lib/googletest/googletest-1.10.0/googlemock/src/gmock-matchers.cc:420-458 | a covering matching exists exactly when there is a one-to-one map from elements to matchers that match them, which leaves out nothing the flags ask for |
| `Pairing.FindPairing` | cpp_faster_fifo/cpp_lib/googletest/googletest-1.10.0/googlemock/src/gmock-matchers.cc:420-458 | true exactly when some one-to-one assignment along edges covers what the flags ask for |
| `Pairing.VerifyMatchMatrix` | cpp_faster_fifo/cpp_lib/googletest/googletest-1.10.0/googlemock/src/gmock-matchers.cc:370-418 | true exactly when every matcher and every element, as far as the flags ask, has an edge |
| `Pairing.PlausibleMeansCovered` | cpp_faster_fifo/cpp_lib/googletest/googletest-1.10.0/googlemock/src/gmock-matchers.cc:370-418 | the prefilter accepts exactly when all edges taken together reach every matcher and every element the flags ask for |
| `Pairing.PrefilterIsSound` | cpp_faster_fifo/cpp_lib/googletest/googletest-1.10.0/googlemock/src/gmock-matchers.cc:365-369 | the prefilter never rejects a matrix a pairing could satisfy |
| `Pairing.MatchesUnordered` | cpp_faster_fifo/cpp_lib/googletest/googletest-1.10.0/googlemock/include/gmock/gmock-matchers.h:2985-3003 | early exits and prefilter included, the decision over a matrix is the existence of a covering matching |
| `Pairing.AnalyzeElements` | cpp_faster_fifo/cpp_lib/googletest/googletest-1.10.0/googlemock/include/gmock/gmock-matchers.h:3008-3031 | the matrix has an edge exactly where a matcher matches an element |
| `Pairing.MatchAndExplain` | cpp_faster_fifo/cpp_lib/googletest/googletest-1.10.0/googlemock/include/gmock/gmock-matchers.h:2977-3004 | from the matchers' answers to the result: true exactly when such a map exists |
| `MatchMatrices.MatchMatrix.NextGraph` | cpp_faster_fifo/cpp_lib/googletest/googletest-1.10.0/googlemock/src/gmock-matchers.cc:247-259 | adds one to the matrix read as a binary number; false exactly on wrapping to the empty graph |
| `MatchMatrices.IncrementAddsOne` | cpp_faster_fifo/cpp_lib/googletest/googletest-1.10.0/googlemock/include/gmock/gmock-matchers.h:2860-2863 | carrying through the cells adds one modulo 2 to the number of cells |
| `MatchMatrices.EnumeratesAllGraphs` | cpp_faster_fifo/cpp_lib/googletest/googletest-1.10.0/googlemock/include/gmock/gmock-matchers.h:2860-2863 | counting up from the empty graph meets every graph exactly once before the first wrap |
| `MatchMatrices.EnumeratesAllEdgeSets` | cpp_faster_fifo/cpp_lib/googletest/googletest-1.10.0/googlemock/include/gmock/gmock-matchers.h:2860-2863 | counting up from the matrix without edges meets every set of element-matcher pairs at exactly one count before the first wrap |
| `MatchMatrices.MatchMatrix.constructor` | cpp_faster_fifo/cpp_lib/googletest/googletest-1.10.0/googlemock/include/gmock/gmock-matchers.h:2845-2849 | a new matrix has no edges |
| `MatchMatrices.MatchMatrix.SetEdge` | cpp_faster_fifo/cpp_lib/googletest/googletest-1.10.0/googlemock/include/gmock/gmock-matchers.h:2856-2858 | sets or clears exactly the one edge |
| `MatchMatrices.MatchMatrix.EdgesAreCells` | cpp_faster_fifo/cpp_lib/googletest/googletest-1.10.0/googlemock/include/gmock/gmock-matchers.h:2853-2855 | the edges are the cells that are set, in element-major order |
| `Expectations.RetireAllPreRequisites` | cpp_faster_fifo/cpp_lib/googletest/googletest-1.10.0/googlemock/src/gmock-spec-builders.cc:104-127 | the retired set becomes the old one plus all transitive prerequisites, and the rule that justifies the short-cut holds again |
| `Expectations.RetireImmediate` | cpp_faster_fifo/cpp_lib/googletest/googletest-1.10.0/googlemock/src/gmock-spec-builders.cc:117-125 | the inner loop keeps the broken rule confined to the stack |
| `Expectations.RetireAfterPrerequisites` | cpp_faster_fifo/cpp_lib/googletest/googletest-1.10.0/googlemock/include/gmock/gmock-spec-builders.h:1213-1218 | retiring a saturated expectation after its prerequisites keeps the rule |
| `Expectations.AllPrerequisitesAreSatisfied` | cpp_faster_fifo/cpp_lib/googletest/googletest-1.10.0/googlemock/src/gmock-spec-builders.cc:131-148 | on an acyclic graph the walk ends although it revisits, and is true exactly when every transitive prerequisite is satisfied |
| `Expectations.PrerequisitesWeighLess` | cpp_faster_fifo/cpp_lib/googletest/googletest-1.10.0/googlemock/src/gmock-spec-builders.cc:139-145 | all prerequisites of a node together weigh less than the node: the termination measure |
| `Expectations.Expectation.After` | cpp_faster_fifo/cpp_lib/googletest/googletest-1.10.0/googlemock/include/gmock/gmock-spec-builders.h:974-985 | the expectation transitively waits for all the given ones; an acyclic graph stays so exactly when none of them is the expectation or depends on it |
| `Expectations.Sequence.AddExpectation` | cpp_faster_fifo/cpp_lib/googletest/googletest-1.10.0/googlemock/src/gmock-spec-builders.cc:853-861 | the expectation transitively waits for the last one, unless it is the last one, and becomes the last; an acyclic graph stays so exactly when the last one does not depend on it |
| `Registrations.RegisterAcyclic` | cpp_faster_fifo/cpp_lib/googletest/googletest-1.10.0/googlemock/include/gmock/gmock-spec-builders.h:945-985 | creating an expectation never closes a cycle; a clause does exactly when it makes an expectation wait for itself or for one that depends on it |
| `Registrations.AcyclicOverHistories` | cpp_faster_fifo/cpp_lib/googletest/googletest-1.10.0/googlemock/src/gmock-spec-builders.cc:853-861 | after any history of registrations, of old and new expectations alike, the graph is acyclic if and only if no registration closed a cycle |
| `Registrations.NewestIsSafe` | cpp_faster_fifo/cpp_lib/googletest/googletest-1.10.0/googlemock/include/gmock/gmock-spec-builders.h:1626-1645 | when every clause belongs to the expectation created last and names others, the graph is closed and acyclic after any history, as the walk over prerequisites needs |
| `Registrations.OlderCanCycle` | cpp_faster_fifo/cpp_lib/googletest/googletest-1.10.0/googlemock/include/gmock/gmock-spec-builders.h:635-637 | adding older expectations to a sequence directly can close a cycle |
| `Registrations.SequenceOrders` | cpp_faster_fifo/cpp_lib/googletest/googletest-1.10.0/googlemock/src/gmock-spec-builders.cc:853-861 | over any history, of two expectations in one sequence the one added later waits for the one added earlier, whatever came between and comes after |
| `Reachability.AddEdgesAcyclic` | cpp_faster_fifo/cpp_lib/googletest/googletest-1.10.0/googlemock/src/gmock-spec-builders.cc:853-861 | new prerequisites keep an acyclic graph acyclic exactly when none of them is the node itself or depends on it |
| `Reachability.WaitsTakeEffect` | cpp_faster_fifo/cpp_lib/googletest/googletest-1.10.0/googlemock/include/gmock/gmock-spec-builders.h:974-985 | an expectation made to wait for others waits for them, for all they wait for, and still for all it waited for before |
| `Reachability.TransitiveIsLeast` | cpp_faster_fifo/cpp_lib/googletest/googletest-1.10.0/googlemock/src/gmock-spec-builders.cc:112-126 | whatever contains a node's prerequisites and those of its own members contains all transitive ones |
| `Reachability.PrerequisiteIsSmaller` | cpp_faster_fifo/cpp_lib/googletest/googletest-1.10.0/googlemock/src/gmock-spec-builders.cc:139-145 | on an acyclic graph a prerequisite has strictly fewer transitive prerequisites |
| `RegexSyntax.PunctuationIsTheList` | cpp_faster_fifo/cpp_lib/googletest/googletest-1.10.0/googletest/src/gtest-port.cc:777-779 | the code ranges used for punctuation hold exactly the characters of the source's list |
| `RegexSyntax.EscapesAreTheList` | cpp_faster_fifo/cpp_lib/googletest/googletest-1.10.0/googletest/src/gtest-port.cc:788-790 | what may follow a backslash: the punctuation characters and dDfnrsStvwW |
| `RegexSyntax.EscapeMatches` | cpp_faster_fifo/cpp_lib/googletest/googletest-1.10.0/googletest/src/gtest-port.cc:794-810 | which characters each escape sequence matches, against the written-out lists of digits, letters and white space |
| `RegexSyntax.PlainMatches` | cpp_faster_fifo/cpp_lib/googletest/googletest-1.10.0/googletest/src/gtest-port.cc:812 | a dot matches all but a newline, any other character only itself |
| `RegexSyntax.AtomsAreTheRest` | cpp_faster_fifo/cpp_lib/googletest/googletest-1.10.0/googletest/src/gtest-port.cc:823-874 | an unescaped character stands for itself or a class exactly if it is not one of the listed special ones |
| `RegexSyntax.ValidateRegex` | cpp_faster_fifo/cpp_lib/googletest/googletest-1.10.0/googletest/src/gtest-port.cc:823-874 | accepts exactly the texts of the grammar's regular expressions |
| `RegexSyntax.AcceptableIsRendered` | cpp_faster_fifo/cpp_lib/googletest/googletest-1.10.0/googletest/src/gtest-port.cc:833-871 | the left-to-right checks and the grammar agree, in both directions |
| `RegexSyntax.RenderInjective` | cpp_faster_fifo/cpp_lib/googletest/googletest-1.10.0/googletest/src/gtest-port.cc:823-874 | a text is the rendering of at most one regular expression |
| `RegexMatch.WordsOfItem` | cpp_faster_fifo/cpp_lib/googletest/googletest-1.10.0/googletest/src/gtest-port.cc:883-905 | an atom denotes one matching character; with `?` at most one, with `+` at least one, with `*` any number |
| `RegexMatch.WordsConcatenate` | cpp_faster_fifo/cpp_lib/googletest/googletest-1.10.0/googletest/src/gtest-port.cc:910-936 | items one after another denote the concatenations of their words |
| `RegexMatch.MatchRepetitionAndRegexAtHead` | cpp_faster_fifo/cpp_lib/googletest/googletest-1.10.0/googletest/src/gtest-port.cc:883-905 | true exactly when some allowed count of atom matches is followed by a match of the rest: the first count that works loses nothing |
| `RegexMatch.MatchRegexAtHead` | cpp_faster_fifo/cpp_lib/googletest/googletest-1.10.0/googletest/src/gtest-port.cc:910-936 | true exactly when a prefix of the string, all of it before `$`, is in the language of the items |
| `RegexMatch.MatchRegexAnywhere` | cpp_faster_fifo/cpp_lib/googletest/googletest-1.10.0/googletest/src/gtest-port.cc:946-958 | true exactly when a substring, placed as the anchors demand, is in the language |
| `RegexMatch.PartialMatch` | cpp_faster_fifo/cpp_lib/googletest/googletest-1.10.0/googletest/src/gtest-port.cc:974-976 | for every pattern and string: true exactly when the pattern is a regular expression that denotes a match |
| `RegexMatch.FullPatternRenders` | cpp_faster_fifo/cpp_lib/googletest/googletest-1.10.0/googletest/src/gtest-port.cc:998-1009 | the pattern kept for full matches is anchored at both ends unless it ends in an escaped dollar sign, when its end is left open |
| `RegexMatch.FullMatch` | cpp_faster_fifo/cpp_lib/googletest/googletest-1.10.0/googletest/src/gtest-port.cc:968-970 | decides the match of that pattern |
| `RegexMatch.FullMatchIsWholeMatch` | cpp_faster_fifo/cpp_lib/googletest/googletest-1.10.0/googletest/src/gtest-port.cc:967-970 | a full match is a match of the entire string, for every string, if and only if the pattern does not end in an escaped dollar sign |
| `RegexMatch.EscapedDollarMatchesMore` | cpp_faster_fifo/cpp_lib/googletest/googletest-1.10.0/googletest/src/gtest-port.cc:1006-1007 | a concrete failure: the pattern of a backslash and a dollar sign matches "$a" in full, which is not in its language |
| `Utf8.RecognisedIsEncoded` | cpp_faster_fifo/cpp_lib/googletest/googletest-1.10.0/googletest/src/gtest-printers.cc:388-410 | what the loop steps over is the encoding of one scalar value |
| `Utf8.EncodedIsRecognised` | cpp_faster_fifo/cpp_lib/googletest/googletest-1.10.0/googletest/src/gtest-printers.cc:388-410 | every encoding of a scalar value is stepped over at its full length, whatever follows |
| `Utf8.IsValidUTF8` | cpp_faster_fifo/cpp_lib/googletest/googletest-1.10.0/googletest/src/gtest-printers.cc:382-415 | accepts exactly the concatenations of encodings of scalar values, reading only within the length |
| `Utf8.DecodeRoundTrip` | cpp_faster_fifo/cpp_lib/googletest/googletest-1.10.0/googletest/src/gtest-printers.cc:382-415 | the decoding is unique: scalar values are recovered from their bytes |

## Left out

- Mutex and condition-variable set-up, placement new and the memory mapping: foreign calls. The mutex is the atomicity of a step, a condition variable a set of sleeping threads; the logged assertions are proved invariants.
- `queue_put` and `queue_get` as one method each with their waiting loops: a turn of the waiting loop is one lock hold, and the turns are put together by the steps of the protocol, where other threads run in between.
- The unlocked `get_queue_size`, `get_data_size` and `is_queue_full`: one-line reads without a guarantee.
- Timer.MicrosToTimeVal: takes the microsecond count of line 141 as given, because how a float is scaled and truncated is not modelled.
- Clock readings in the protocol: a step takes the microseconds a wait lasted as a parameter; the `timeval` arithmetic behind it is proved in `Timer`.
- ProtocolWakeups.NoMutualSleep: the condition is sufficient and not necessary; the exact conditions are those of `ConsumersServedOverRuns` and `ProducersServedOverRuns`.
- Fairness of the scheduler: nothing forces an awakened thread to run soon; the progress results bound how many lock holds can happen before nobody is left to run.
- The Cython and Python wrapper (pickling, growing the receive buffer): only the retry rule it follows is modelled, in `Draining`.
- `MatchMatrix::Randomize` and `DebugString`, and all explanations written to listeners: set-up or text output.
- The matching state keeps the graph as a value, not as a pointer to the matrix: the matrix does not change during the search.
- `FindUnsatisfiedPrerequisites`, `Retire` and the cardinality behind `IsSatisfied`: an expectation carries a flag that says whether it is satisfied.
- Null pointers for patterns and strings, and the text of syntax errors.
- The POSIX regular expression branch: it calls a foreign library.
