# speedtest — a verified model of the `SpeedTest` client bookkeeping

`src/lib/speedtest.js` defines a browser class `SpeedTest`. It has three
measurements and a `stop()` method:

- `testLatency` makes five timed requests. It drops the ones that fail,
  sorts the surviving durations ascending and returns the element at
  index `floor(n/2)`. It returns 0 when nothing survives.
- `testDownload` reads three response bodies concurrently.
- `testUpload` runs three workers, each of which posts a 1 MiB payload
  over and over.

Both transfer tests add every chunk into one shared `totalBytes`. They
report progress when more than 100 ms have passed since the last report,
and they end with `max(0, totalBytes*8/(totalTime*1000))` Mbps. `stop()`
aborts the current controller and clears `isRunning`.

This project models that bookkeeping in Dafny. The network, the clock and
the watchdog timer are replaced by inputs:

- A latency attempt is an `Option<nat>`: the duration in whole
  milliseconds, or `None` for a failed request.
- A transfer is a sequence of events in the order JavaScript's single
  thread ran them:
  - a download chunk read, possibly without a `value`;
  - a stream that finished or threw;
  - a completed or rejected upload post;
  - the abort.

  Every event except the abort carries its stream or worker number. A
  chunk read and a completed post also carry the clock reading taken
  right after them; the end of a stream, a rejection and the abort carry
  none, since the code reads no clock there. Because each loop body runs
  without interruption, the concurrent streams are exactly an arbitrary
  interleaving of these events. The model does not fix the number of
  streams or workers: its properties hold for any number of them, so
  also for the three the code starts.

Files:

- `wrappers.dfy`: the `Option` type.
- `latency.dfy`, module `Latency`:
  - `LatencyOf` is the specification of the latency result.
  - `Ascending` and `SortAscending` give a reference ascending sort.
  - `SortInPlace` is the in-place insertion sort on an `array<nat>`.
  - The lemmas give the median, zero and sample properties, and the
    worked examples.
- `transfer.dfy`, module `Transfer`, is shared by both directions:
  - the unit conversion `Rate` and the final value `FinalSpeed`, with
    `Speed` covering JavaScript's `NaN` and `Infinity`;
  - the event type `Step`, and `Translate`, which turns either
    direction's events into steps one by one;
  - the declarative specification of what is counted (`Counted`,
    `StreamBytes`) and when progress is reported (`Debounced`,
    `ProgressAt`);
  - the classes `AbortController` and `Accumulator`. `Accumulator`
    holds `totalBytes`, `startTime` and `lastUpdate`. Its `Record` method
    is one loop body. Its `Run` method is the loop over an interleaving.
- `directions.dfy`:
  - module `Download`: read, done, failed and abort events, and how they
    map onto `Step`;
  - module `Upload`: post, rejection and abort events, and the fixed
    1 MiB chunk.
- `speedtest.dfy`, module `Client`: the class `SpeedTest` with
  `isRunning` and `abortController`, its constructor, `Stop`,
  `TestLatency`, `TestDownload` and `TestUpload`.

Behaviour of the code that the model keeps:

- The progress rule is strict: a gap of exactly 100 ms does not report.
- `isRunning` is never set to `true` by any method. No test is rejected
  because another one is running.
- The final value is not floored when the elapsed time is zero. In that
  case `x/0` gives `Infinity`, or `NaN` when no byte was counted, and
  `Math.max(0, NaN)` is `NaN`.
- A download stream checks the abort flag after each read, so a read that
  completes after the abort adds nothing.
- An upload worker adds the chunk size after `await fetch` without
  checking the abort flag. A post still in flight when the abort fires is
  rejected by the signal passed to `fetch`, so no post resolves after the
  abort; the model therefore counts a post that follows the abort as 0.

## Model

| member | source | states |
|---|---|---|
| Latency.SurvivorsCount | src/lib/speedtest.js:13-25 | a failed attempt is dropped and the loop goes on, so the number of samples plus the number of failed attempts is the number of attempts (at most 5) |
| Latency.SurvivorsAreSuccesses | src/lib/speedtest.js:13-25 | a duration is among the samples exactly when some attempt produced it |
| Latency.SortInPlace | src/lib/speedtest.js:30 | the in-place sort leaves the array ascending and a permutation of its old contents |
| Latency.SortAscendingCorrect | src/lib/speedtest.js:30 | the reference sort returns an ascending permutation of its input |
| Latency.AscendingUnique | src/lib/speedtest.js:30 | two ascending arrangements of the same samples are equal, so the sorted order and the picked element do not depend on how the sort works |
| Latency.AllFailedGivesZero | src/lib/speedtest.js:28 | when no attempt succeeds the result is 0 |
| Latency.LatencyIsASample | src/lib/speedtest.js:28-31 | when some attempt succeeds the result is one of the measured durations |
| Latency.LatencyZeroIff | src/lib/speedtest.js:13-31 | with positive durations, the result is 0 exactly when every attempt failed |
| Latency.LatencyIsUpperMedian | src/lib/speedtest.js:30-31 | at most floor(n/2) samples lie strictly below the result and more than floor(n/2) lie at or below it, so it is the upper median |
| Latency.LatencyFromArrangement | src/lib/speedtest.js:30-31 | any ascending arrangement of the samples has the result at index floor(n/2) |
| Latency.FiveSamples | src/lib/speedtest.js:13-31 | the samples 50, 10, 40, 20, 30 give 30 |
| Latency.ThreeSurvivors | src/lib/speedtest.js:13-31 | three survivors 35, 15, 25 among five attempts give 25 |
| Latency.TwoSurvivors | src/lib/speedtest.js:13-31 | whichever two attempts succeed, the result is the larger of the two samples |
| Latency.SecondAndFourth | src/lib/speedtest.js:13-31 | only the second and the fourth attempt succeed: the result is the larger of their durations |
| Latency.NoSurvivors | src/lib/speedtest.js:28 | five failed attempts give 0 |
| Transfer.Rate | src/lib/speedtest.js:74-75 | the Mbps value times elapsed ms times 1000 equals the bytes times 8; it is non-negative for positive elapsed time and positive when bytes were counted |
| Transfer.FinalSpeed | src/lib/speedtest.js:94-97 | the result is finite exactly when the elapsed time is non-zero, is never negative when finite, is the exact conversion for positive time, is 0 for negative time, and is NaN (no bytes) or Infinity (some bytes) for zero time |
| Transfer.AbortController.constructor | src/lib/speedtest.js:36-37 | a new controller is not aborted |
| Transfer.AbortController.Abort | src/lib/speedtest.js:49-51 | after abort the signal is aborted |
| Transfer.Accumulator.constructor | src/lib/speedtest.js:45-47 | the total starts at 0 and lastUpdate starts at startTime |
| Transfer.Accumulator.Record | src/lib/speedtest.js:70-78 | one event adds its bytes; it reports exactly when now - lastUpdate > 100, the report is the cumulative rate from startTime, and only a report moves lastUpdate to now |
| Transfer.Accumulator.Advance | src/lib/speedtest.js:66-79 | one interleaved event keeps the loop invariant: the total is the counted bytes so far, the reports so far satisfy the debounce rule, and the abort flag reflects the events so far |
| Transfer.Accumulator.Deliver | src/lib/speedtest.js:70-78 | a delivery of a live stream, passed through Record, keeps the loop invariant one event further |
| Transfer.ConsistentReport | src/lib/speedtest.js:70-77 | a counted delivery more than 100 ms after the last report adds its bytes, and the reports grow by the new cumulative rate at that event |
| Transfer.ConsistentQuiet | src/lib/speedtest.js:70-73 | a counted delivery at most 100 ms after the last report adds its bytes and reports nothing |
| Transfer.ConsistentSkip | src/lib/speedtest.js:66-68 | an event after the abort, or of a stream that already left its loop, changes neither the total nor the reports |
| Transfer.Accumulator.Run | src/lib/speedtest.js:54-89 | over any interleaving, the final total is the counted bytes, the signal is aborted exactly when an abort occurred, the reports are exactly the debounced ones, and each report is the cumulative rate at its event |
| Transfer.CountedSnoc | src/lib/speedtest.js:66-70 | one more event changes the total by exactly what that event delivers |
| Transfer.DebouncedReport | src/lib/speedtest.js:73-77 | a counted event more than 100 ms after the last report extends the debounced reports by itself |
| Transfer.DebouncedQuiet | src/lib/speedtest.js:73 | a counted event at most 100 ms after the last report leaves the reports unchanged |
| Transfer.DebouncedIgnored | src/lib/speedtest.js:68 | an event that is not counted never reports |
| Transfer.ReportsSpaced | src/lib/speedtest.js:72-78 | the first report comes more than 100 ms after startTime and consecutive reports are more than 100 ms apart |
| Transfer.DebouncedUnique | src/lib/speedtest.js:72-78 | the debounce rule determines the reports: two report lists that both satisfy it are equal |
| Transfer.CountedGrows | src/lib/speedtest.js:70 | the total never decreases as events are appended |
| Transfer.AfterAbort | src/lib/speedtest.js:68 | once the abort happened, later events add nothing |
| Transfer.CountedAtMostOffered | src/lib/speedtest.js:66-70 | the total is at most the sum of all delivered bytes |
| Transfer.NoLostUpdates | src/lib/speedtest.js:54-89 | without abort and without any stream ending, every delivered byte is counted, so the shared `+=` loses nothing in any interleaving |
| Transfer.StreamIsolation | src/lib/speedtest.js:54-87 | a stream's contribution is what it would count if it ran alone |
| Transfer.FailureIsLocal | src/lib/speedtest.js:82-86 | inserting the end of stream v anywhere does not change what another stream w contributes |
| Transfer.StreamShare | src/lib/speedtest.js:70 | each stream's contribution is at most the total |
| Transfer.UniformDeliveries | src/lib/speedtest.js:133 | when every event delivers the same size, the total is that size times the number of counted events, which is at most the number of events |
| Download.StepsKeepEnds | src/lib/speedtest.js:66-68 | the abort reaches the accumulator exactly when it occurs, and a stream ends exactly when it is done or failed |
| Download.ChunkAddsLength | src/lib/speedtest.js:66-70 | a chunk read on a live stream before the abort adds its length |
| Download.MissingValueAddsNothing | src/lib/speedtest.js:70 | a read without a value adds 0 |
| Download.NothingAfterAbort | src/lib/speedtest.js:68 | reads after the abort add nothing |
| Download.FailedStreamIsLocal | src/lib/speedtest.js:55-86 | a failing stream does not change what any other stream contributes |
| Download.OneStreamSuffices | src/lib/speedtest.js:54-97 | if one stream delivered bytes and time passed, the final speed is positive although other streams failed |
| Upload.StepsKeepEnds | src/lib/speedtest.js:121-147 | the abort reaches the accumulator exactly when it occurs, and a worker stops exactly when a post of its own was rejected |
| Upload.PostAddsPayload | src/lib/speedtest.js:126-133 | a completed post of a running worker before the abort adds exactly 1048576 bytes |
| Upload.RejectedWorkerAddsNothing | src/lib/speedtest.js:142-147 | after a worker's rejection its later posts add nothing |
| Upload.RejectedWorkerIsLocal | src/lib/speedtest.js:142-147 | a rejected worker does not change what another worker contributes |
| Upload.StepsShape | src/lib/speedtest.js:120-133 | every upload event maps to one accumulator event, and the deliveries are the completed posts |
| Upload.WholePayloads | src/lib/speedtest.js:105-147 | the upload total is a multiple of 1048576 and at most 1048576 times the number of completed posts |
| Client.SpeedTest.constructor | src/lib/speedtest.js:3-6 | a new client is not running and has no controller |
| Client.SpeedTest.Stop | src/lib/speedtest.js:162-167 | the controller is kept and aborted if there is one, and the client is not running; so calling it when idle or twice is harmless |
| Client.SpeedTest.TestLatency | src/lib/speedtest.js:9-32 | pushing the survivors in a loop and sorting them in place returns exactly the specified latency |
| Client.SpeedTest.TestDownload | src/lib/speedtest.js:35-98 | a fresh controller is installed, it ends up aborted exactly when the abort happened, the result is the final speed of the counted bytes, and the progress values are exactly the debounced cumulative rates |
| Client.SpeedTest.TestUpload | src/lib/speedtest.js:101-160 | the same guarantees as TestDownload, over the upload events |

## Left out

- Network I/O: `fetch`, response bodies, readers and `reader.releaseLock()`, `FormData`, `Blob`, the endpoint URLs and HTTP status checks. Their outcomes are input events: a read, done, or failure, and a completed or rejected post.
- `performance.now()`: clock readings are integer milliseconds carried by the events, plus the start and end times of each test.
- The `setTimeout` watchdog, its `duration` argument and `clearTimeout`. The abort is an event that may occur at any point of the interleaving.
- `Promise.allSettled` and the async scheduling. They are replaced by an arbitrary interleaving of whole loop bodies, which is what a single JavaScript thread allows.
- `crypto.getRandomValues` and the payload contents: only the payload length matters to the bookkeeping.
- `console.warn` logging.
- The `onProgress` callback: it is replaced by the returned sequence of reported values. A callback that throws is not modelled: in the code the catch at lines 82 and 142 would end that stream or worker after its bytes were added and before `lastUpdate` moves.
- IEEE-754 arithmetic: rates are exact reals, and durations are whole milliseconds, so `Math.round` is the identity.
- Latency.LatencyZeroIff: holds only for positive durations. A successful 0 ms sample also yields 0.
- Client.SpeedTest.TestDownload: the model does not cover aliasing of `this.abortController` when two tests overlap. A later test replaces the controller that an earlier watchdog or `stop()` would abort.
- Client.SpeedTest.TestUpload: the same aliasing limitation as TestDownload.
