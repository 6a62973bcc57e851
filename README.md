# Redis Streams consumer-group benchmark — a Dafny model

The benchmark measures how fast a group of consumers can drain a Redis stream.
`main` (main.go) does the setup:
- it dials the server;
- it resolves how many messages to wait for, taking the stream length when the requested count is 0;
- it destroys the consumer group and creates it again at id 0;
- it starts one worker per consumer name `<prefix><n>`.

Each worker (`groupConsumerRoutine`, group-consumer.go) loops:
- it reads one new entry at a time into a pending window of at most `pcount` identifiers;
- it acknowledges the oldest pending identifier once the window is full or the stream has run dry;
- it returns when it is stopped, or when nothing is pending and no entry is left;
- with a window bound `pcount` of 0 or less, it returns on its first iteration without any call.

Meanwhile the reporter (`updateCLI`) samples the shared counters on every timer tick:
- it resets the start time on the first tick that sees a nonzero read count;
- it appends one rate sample per tick with a nonzero read count;
- it returns when the acknowledged count equals the target, or when an interrupt arrives.

After the reporter returns, `main` prints the report and writes the optional JSON file. Then, after an interrupt, it returns without closing the stop channel or waiting for any worker. Otherwise it closes the stop channel and waits for every worker.

The project has four modules:

- `Broker` (broker.dfy): entry identifiers and read replies. The broker is a scripted
  sequence of replies, and the stop channel is a scripted flag per iteration.
- `GroupConsumer` (group_consumer.dfy): the worker loop.
  - The loop is stated as functions over a configuration: `Choose`, `AfterFetch`, `AfterAck`, `Next` and `Run`.
  - The loop invariant `Inv`, and the lemmas about whole runs, are stated over that configuration.
  - The class `Worker` executes the loop in place on its fields. It is proved to follow `Run` exactly.
- `Reporter` (reporter.dfy): the reporter loop.
  - It is a function `Observe` over a finite sequence of timer and interrupt events.
  - Lemmas cover the series and the start time.
  - The method `UpdateCli` keeps its state in local variables, as the source does.
- `Orchestrator` (orchestrator.dfy): the setup steps and their fatal errors, target resolution,
  consumer naming and the spawn loop, and the shutdown decision. `Benchmark` puts them together in order.

## Model

| member | source | states |
|---|---|---|
| GroupConsumer.Choose | group-consumer.go:37-72 | Fetches exactly when the window has room and the source is not exhausted, so fetching takes priority over acknowledging; returns exactly when the window is empty and the source is exhausted (or the window bound is not positive); acknowledges only with something pending |
| GroupConsumer.AfterFetch | group-consumer.go:37-54 | A read is one call more; an empty reply sets `done` and leaves the window alone; an entry is appended to the window and to the fetched count |
| GroupConsumer.AfterAck | group-consumer.go:55-69 | The head of the window is removed, and it is the identifier acknowledged and counted; nothing else changes |
| GroupConsumer.Next | group-consumer.go:37-69 | Every iteration that does not return issues exactly one call, only extends the traces, keeps `done` once set, and decreases the termination measure |
| GroupConsumer.NextKeepsInv | group-consumer.go:37-69 | The loop invariant: the window is exactly the fetched but unacknowledged identifiers in order, never more than `pcount` of them, and the fetched identifiers are the stream's entries in order |
| GroupConsumer.Run | group-consumer.go:32-74 | A run terminates on a finite source; it ends Stopped exactly when the stop signal is seen; when it ends Drained, the window is empty, the source is exhausted (or the window bound is not positive), and every fetched identifier was acknowledged |
| GroupConsumer.RunProgress | group-consumer.go:32-74 | One call per iteration, traces only grow, no read after `done`, and the stop signal was not seen before the last iteration |
| GroupConsumer.RunUnfolds | group-consumer.go:32-74 | An iteration that neither stops nor returns hands the rest of the run to the next iteration, keeping the invariant |
| GroupConsumer.FiniteSourceDrains | group-consumer.go:19-74 | On a stream of n entries with no stop: every entry is fetched and acknowledged in stream order, with n + 1 reads, and it returns after 2n + 1 iterations that each issued one call |
| GroupConsumer.EmptyWindowReturns | group-consumer.go:37-72 | With `pcount <= 0` the worker returns on its first iteration without a call |
| GroupConsumer.StopOnlyTruncates | group-consumer.go:33-35 | A stopped run's calls, fetches and acknowledgements are prefixes of those of the unstopped run |
| GroupConsumer.StopBoundsRun | group-consumer.go:33-35 | A stop seen at iteration s means the worker has returned by iteration s |
| GroupConsumer.UnitWindowStep | group-consumer.go:37-69 | With `pcount = 1`, one iteration keeps the read/acknowledge alternation shape |
| GroupConsumer.UnitWindowRun | group-consumer.go:32-74 | With `pcount = 1`, the alternation shape holds for the whole run |
| GroupConsumer.UnitWindowAlternates | group-consumer.go:37-69 | With `pcount = 1`, calls alternate read, acknowledge, read, ..., and each acknowledgement is for the entry the read before it delivered |
| GroupConsumer.Worker.constructor | group-consumer.go:19-20 | A new worker has an empty window and an unexhausted source |
| GroupConsumer.Worker.ApplyFetch | group-consumer.go:37-54 | The in-place fetch branch equals `AfterFetch` and `Next` of the old state |
| GroupConsumer.Worker.PopAndAck | group-consumer.go:55-69 | The in-place acknowledge branch returns the old head of the window, and its new state equals `AfterAck` and `Next` |
| GroupConsumer.Worker.Consume | group-consumer.go:12-75 | The in-place loop returns the same exit and reaches the same final state as `Run` |
| Reporter.Delta | main.go:153 | The uint64 difference of two counter readings: the exact difference when the counter did not decrease, wrapped by 2^64 otherwise |
| Reporter.AfterTick | main.go:151-161 | A tick records the read count and time; it appends one sample exactly when the read count is nonzero, and that sample is the uint64 increase since the last tick (`Delta`); start moves only on the first nonzero reading |
| Reporter.Observe | main.go:147-177 | The loop returns on the first tick whose acknowledged count equals the target or the first interrupt, is Cancelled exactly for the interrupt, returns that event's read count, and waits when no event ends it |
| Reporter.SeriesCountsNonzeroTicks | main.go:157-159 | The series grows by exactly one per tick with a nonzero read count, including the tick that resets start |
| Reporter.StartStaysAfterFirstRead | main.go:154-156 | With a non-decreasing counter, start is never reset once a nonzero count was seen |
| Reporter.StartIsFirstNonzeroTick | main.go:138-156 | With a non-decreasing counter, start is the time of the first tick with a nonzero read count, or the call's start time if there is none |
| Reporter.ZeroTargetReturnsOnFirstTick | main.go:167-169 | The completion test is equality, so a zero target with nothing acknowledged completes on the first tick |
| Reporter.InterruptCancels | main.go:173-175 | The first interrupt not preceded by a completing tick ends the loop as Cancelled, whatever comes after it, returning the read count seen with it; an interrupt handled first leaves the state unchanged |
| Reporter.UpdateCli | main.go:136-179 | The loop over local variables returns the verdict, start, total and series of `Observe` |
| Orchestrator.ResolveTarget | main.go:59-65 | A requested count of 0 means the stream length; otherwise the requested count |
| Orchestrator.Setup | main.go:54-79 | Each of dial, XLEN (only when the count is 0), XGROUP DESTROY and XGROUP CREATE is fatal exactly when it fails and every earlier step succeeded; otherwise setup yields the resolved target |
| Orchestrator.RequestedCountIgnoresBacklog | main.go:60-65 | With a nonzero requested count the XLEN reply plays no part |
| Orchestrator.Decimal | main.go:85 | `%d` of a natural: at least one digit, only digits, no leading zero |
| Orchestrator.DecimalValue | main.go:85 | The digits `Decimal(n)` prints denote n |
| Orchestrator.DecimalInjective | main.go:85 | Different numbers print differently |
| Orchestrator.ConsumerName | main.go:85 | The name is the prefix followed by the decimal ordinal |
| Orchestrator.ConsumerNamesDistinct | main.go:84-85 | Consumers with different ordinals get different names |
| Orchestrator.SpawnConsumers | main.go:84-88 | One worker per ordinal 1..count, none for a count below 1, named in order and pairwise distinct |
| Orchestrator.ShutdownAfter | main.go:126-133 | After an interrupt, no close and no wait; otherwise close the stop channel and wait for every worker |
| Orchestrator.Benchmark | main.go:54-133 | Setup failure stops the run at the failing step; otherwise the workers, the report and the shutdown are those of the functions above, for a run with no JSON file named or with a JSON write that succeeds |

## Left out

- Only finite sources are modelled. The broker is a finite script of replies, and every read past its end gets no entry. A stream that keeps growing, on which a worker in the source keeps reading until the stop signal, cannot be written down, so `GroupConsumer.Run` terminates on every input of the model.
- Network I/O and the radix client: every broker reply, including the stop channel's state at each iteration, is an input.
- `bootstrapGroupConsumer` is not part of this model. It is the worker's own dial and CLIENT SETNAME, and either failure is fatal (`log.Fatal`).
- Flags, tabwriter output, the rate and duration printout and `printLatencySummary` are left out, because they are input parsing and output formatting only.
- The JSON file (main.go:106-124) is not modelled. When one is named and marshalling or writing it fails, `log.Fatal` ends the program before the shutdown decision, so the stop channel is never closed and no worker is waited for. `Orchestrator.Benchmark` models a run with no JSON file named, or with a write that succeeds.
- The read and ack latency histograms are left out. The model counts the samples instead: `readCalls` counts read latencies, and `acked` counts ack latencies.
- `log.Fatal` on a failed XREADGROUP, a failed XACK or a histogram error is not modelled: every worker call is assumed to succeed.
- Concurrency is not modelled. This covers the goroutines, the atomic counters, the WaitGroup and the `select` between the ticker and the interrupt.
  - Workers are modelled one at a time, each with its own traces.
  - The reporter sees the shared counters as numbers carried on each tick event.
  - How the workers' increments interleave with the ticks is therefore not modelled.
- Reporter.Observe and UpdateCli return the read count seen on the ending event as the total. The source reads the shared counter again when it returns, so a worker increment between the two reads is not modelled.
- Reporter.Observe: the event stream is finite, so a reporter that never sees an ending event ends with the extra verdict `Waiting`. `main` then never returns, and `Benchmark` ends `Unfinished`.
- Clocks and floating point: times are natural numbers carried on each tick.
  - The series holds each tick's increase of the read count. This is the numerator of the rate that the source divides by the elapsed seconds.
  - The duration and the final message rate are not computed.
  - `start` takes the tick's clock reading, while the source calls `time.Now()` a second time.
- Counters are unsigned 64-bit. The model makes their subtraction wrap explicitly, in `Reporter.Delta`. Their increments are not wrapped, because 2^64 messages are out of reach.
- The flag `message-count` is an unsigned 64-bit integer. The model takes the requested count, and the XLEN reply, as natural numbers without that bound.
- The completion test is `acked == target`, which is equality. Whenever the acknowledged count passes the target between two ticks, the reporter never completes. One worker is enough: a requested count below the stream length does it, and so do entries appended after XLEN. The model keeps the equality (see `Reporter.ZeroTargetReturnsOnFirstTick`).

## Design notes

- An error from XGROUP DESTROY is fatal in the code (main.go:69-72), like the other setup errors, so `Setup` makes it fatal.
- On the first tick with a nonzero read count, the code both resets `start` and appends a rate sample (main.go:154-159). `AfterTick` does both, and `SeriesCountsNonzeroTicks` states it.
