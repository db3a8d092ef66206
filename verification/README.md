# Request telemetry of the fiber web server, in Dafny

This project models the request-telemetry state machine of the web server in
`cmd/main/main.go`. The server keeps five process-wide variables:

- `totalRequests`: every accepted request.
- `lastMinuteRequests`: the per-minute accumulator.
- `lastRequests`: the second sampler's baseline.
- `requestsPerSecond` and `requestsPerMinute`: the latest reported rates.

Three kinds of event act on them:

- An accepted POST to `/data` increments both counters.
- The one-second tick reports `totalRequests - lastRequests` and moves the baseline up to the total.
- The one-minute tick reports the accumulator and resets it to zero.

The model is split into four modules:

- `Uint64` (`uint64.dfy`): Go's `uint64` values, with wrap-around addition and subtraction written out modulo 2^64.
- `Telemetry` (`telemetry.dfy`): the state record, the `/data` handler and the three transitions as pure functions.
- `Traces` (`traces.dfy`): a run is a sequence of events applied one at a time. Lemmas tie the counters after a run to counts of accepted requests in the trace.
- `MinuteRace` (`minute_race.dfy`): the minute tick as the code writes it, as two separate steps. This is the finding below.

Other modelling choices:

- Whether a body decodes as JSON is a parameter of the model, `decodes: Body -> bool`. The JSON library is not modelled.
- The goroutines and tickers become a sequential interleaving of atomic events.
- The rates stay as the integer deltas. The server converts them to `float64` only for display and export.

Two points where the code is not what one might expect:

- The code does not clamp a negative per-second delta. It subtracts `uint64` values (main.go:104), so a baseline above the total wraps modulo 2^64. `Uint64.Sub` and `Telemetry.SecondTick` model this wrap.
- The minute tick is a load followed by a separate store, not an atomic swap. See "## Findings".

## Model

| member | source | states |
|---|---|---|
| `Uint64.Inc` | cmd/main/main.go:73-74 | an atomic add of 1 to a uint64 gives the successor, or 0 when the value was the maximum |
| `Uint64.Sub` | cmd/main/main.go:104 | uint64 subtraction gives the exact difference when the subtrahend is not larger; otherwise it wraps to 2^64 minus the shortfall |
| `Uint64.SubInvertsAdd` | cmd/main/main.go:104 | the wrapped difference is the unique amount the baseline must grow by to reach the current value |
| `Telemetry.Accept` | cmd/main/main.go:72-74 | a counted request raises `totalRequests` and `lastMinuteRequests` by one each (with wrap) and leaves the sampler fields unchanged |
| `Telemetry.HandlePost` | cmd/main/main.go:66-75 | status 400 with "Invalid JSON" exactly when the body does not decode, and then no counter changes; otherwise status 200 and the request is counted |
| `Telemetry.SecondTick` | cmd/main/main.go:102-106 | the delta added to the old baseline gives the total, and is the plain difference when the baseline is not ahead; the baseline becomes the total; the total and the minute fields are unchanged |
| `Telemetry.MinuteTick` | cmd/main/main.go:108-111 | the reported minute figure is the accumulator before the tick, the accumulator is 0 afterwards, and the total and second-sampler fields are unchanged |
| `Telemetry.StepPreservesInv` | cmd/main/main.go:66-111 | every event keeps `lastRequests <= totalRequests` and `lastMinuteRequests <= totalRequests`, provided an accepted request does not wrap the total |
| `Telemetry.WrapBreaksInv` | cmd/main/main.go:73 | without that proviso the invariant fails: one request at the maximum total wraps it below its baseline |
| `Traces.RunTracksAccepts` | cmd/main/main.go:66-111 | after any trace from the zero start, three counts of accepted requests, each modulo 2^64: the total is the count of all of them; the pending second delta is the count since the last second tick; the minute accumulator is the count since the last minute tick |
| `Traces.SecondDeltaCountsAccepts` | cmd/main/main.go:103-105 | a second tick reports the number of requests accepted since the previous second tick, or since start. The figure is taken modulo 2^64, and is exact when fewer than 2^64 requests were accepted |
| `Traces.MinuteCountsAccepts` | cmd/main/main.go:109-111 | a minute tick reports the number of requests accepted since the previous minute tick, or since start, and leaves the accumulator at 0. The figure is taken modulo 2^64, and is exact below 2^64 accepts |
| `Traces.InvariantFromStart` | cmd/main/main.go:17-23 | from the all-zero start, with fewer than 2^64 accepts, both baselines stay at or below the total; the total equals the accept count, and the baseline equals the accepts up to the last second tick |
| `Traces.DeltasTelescope` | cmd/main/main.go:103-105 | from any state, the per-second deltas of a run sum, modulo 2^64, to how far the baseline moved over the run |
| `Traces.DeltasSumToBaseline` | cmd/main/main.go:103-105 | from the start and below 2^64 accepts, the per-second deltas sum exactly to the final baseline, which is all accepts except those still pending for the next second tick |
| `Traces.MinuteWindowsPartitionAccepts` | cmd/main/main.go:108-111 | below 2^64 accepts, the minute figures reported so far plus the open accumulator equal the number of accepted requests, so, with the minute tick as one step, each accept lands in exactly one minute window |
| `Traces.SecondsAddUpToMinute` | cmd/main/main.go:102-111 | from any state, within a minute window that opened together with a second window, the accumulator is the growth of the total (mod 2^64). A minute tick right after a second tick reports the sum of that window's second deltas (mod 2^64) |
| `Traces.WindowCountsExactly` | cmd/main/main.go:102-111 | in such a window with fewer than 2^64 accepts, the second deltas reported so far plus the pending delta equal the window's accepts, and so does the minute accumulator |
| `Traces.SecondsSumToMinute` | cmd/main/main.go:102-111 | in such a window with fewer than 2^64 accepts and ending in a second tick, the sum of the second deltas, the following minute report and the window's accept count are all equal, with no modulus |
| `Traces.FiveThenZero` | cmd/main/main.go:102-106 | five accepted requests and a second tick report 5; a further second tick with no requests reports 0 |
| `MinuteRace.MinuteLoad` | cmd/main/main.go:109 | the first half of the written minute tick reports the accumulator and changes no counter |
| `MinuteRace.MinuteStore` | cmd/main/main.go:111 | the second half overwrites the accumulator with 0 and changes nothing else |
| `MinuteRace.SplitWithoutInterleavingIsTick` | cmd/main/main.go:109-111 | with no request in between, load followed by store is the atomic minute tick |
| `MinuteRace.LoadThenStoreLosesAccept` | cmd/main/main.go:109-111 | a request accepted between the load and the store raises the total. It appears in neither the reported figure nor the new accumulator |
| `MinuteRace.LoadThenStoreCounterexample` | cmd/main/main.go:109-111 | from the start: two requests are accepted around the load, and the minute tick reports 1 and resets to 0 |
| `MinuteRace.ExchangeCountsEveryAccept` | cmd/main/main.go:108-111 | with the exchange as one step, a request just before the tick is reported in the closing window, and one just after is counted in the new window |

## Left out

- The Fiber HTTP server, routing, and the JSON body of the 200 response (username, age, message) are I/O. The handler is modelled only as far as its status code, its error text and its effect on the counters.
- JSON decoding is a caller-supplied predicate on the body, not a model of `encoding/json`.
- Prometheus is a foreign library with no visible logic. This covers its registration, `requestCounter.Inc()`, the gauge `Set` calls and the `/metrics` listener.
- The tview dashboard goroutine is left out. It only reads the state and renders it.
- The `float64` conversions of the rates are left out. The rates are kept as the integer deltas they are converted from.
- Ticker timing, real time and `time.Sleep` are left out. Ticks are events in a trace.
- Concurrency is modelled only through an interleaving of atomic steps. This covers the `sync/atomic` calls, the unsynchronised reads of the rate variables by the dashboard, and the memory-ordering guarantees. The one exception is the load/store gap of the minute tick, modelled in `MinuteRace`.
- `Telemetry.StepPreservesInv`: holds only while the total does not wrap past 2^64 - 1. `Telemetry.WrapBreaksInv` shows the invariant is false without that premise. The server does not guard against overflow.

## Findings

| source | as written | input that shows it | evidently intended | confidence | as-written member | corrected member |
|---|---|---|---|---|---|---|
| cmd/main/main.go:109-111 | the minute tick loads `lastMinuteRequests` and later stores 0 into it, as two separate atomic operations | a POST to `/data` whose increment at line 74 runs after the load at line 109 and before the store at line 111. Its request is in neither minute figure, while `totalRequests` counts it | an atomic swap of the accumulator with 0, so that every accepted request is counted in exactly one minute window | high (not executed) | `MinuteRace.LoadThenStoreLosesAccept` | `MinuteRace.ExchangeCountsEveryAccept` |
