/** The request-telemetry state of the web server and its three atomic
    transitions: an accepted POST to `/data`, the one-second sampler tick and
    the one-minute sampler tick. The rates, which the server keeps as
    `float64` for display, are kept here as the integer counts they are
    converted from. */
module Telemetry {
  import opened Uint64

  /** The process-wide counters. */
  datatype State = State(
    totalRequests: U64,       // every accepted request since start
    lastRequests: U64,        // totalRequests as seen by the previous second tick
    lastMinuteRequests: U64,  // accepted requests since the previous minute tick
    requestsPerSecond: U64,   // delta computed by the latest second tick
    requestsPerMinute: U64    // accumulator reported by the latest minute tick
  )

  /** Every counter starts at Go's zero value. */
  const Init: State := State(0, 0, 0, 0, 0)

  /** The raw body of a POST request. */
  type Body = seq<bv8>

  /** Whether a body decodes as the `{username, age}` JSON object; the JSON
      library is not modelled, so callers supply this predicate. */
  type Decoder = Body -> bool

  const StatusOk: nat := 200
  const StatusBadRequest: nat := 400

  /** The `/data` handler's answer. */
  datatype Response = InvalidJson | DataReceived {
    function Status(): (code: nat)
      ensures code == StatusBadRequest <==> InvalidJson?
      ensures code == StatusOk <==> DataReceived?
    {
      match this
      case InvalidJson => StatusBadRequest
      case DataReceived => StatusOk
    }

    function Error(): string {
      if InvalidJson? then "Invalid JSON" else ""
    }
  }

  datatype Handled = Handled(response: Response, state: State)

  /** The two periodic timers. */
  datatype Cadence = Second | Minute

  /** One event of a trace: a POST with its body, or a timer firing. */
  datatype Event = Post(body: Body) | Tick(cadence: Cadence)

  /** A request is counted: both counters grow by one (with uint64 wrap)
      and the sampler state is left alone. */
  function Accept(s: State): (r: State)
    ensures r.totalRequests == Inc(s.totalRequests)
    ensures r.lastMinuteRequests == Inc(s.lastMinuteRequests)
    ensures s.totalRequests < Max ==> r.totalRequests == s.totalRequests + 1
    ensures s.lastMinuteRequests < Max ==> r.lastMinuteRequests == s.lastMinuteRequests + 1
    ensures r.lastRequests == s.lastRequests
    ensures r.requestsPerSecond == s.requestsPerSecond
    ensures r.requestsPerMinute == s.requestsPerMinute
  {
    s.(totalRequests := Inc(s.totalRequests),
       lastMinuteRequests := Inc(s.lastMinuteRequests))
  }

  /** The `/data` handler: a body that does not decode is answered with
      400 and changes nothing; any other body is counted and answered with 200. */
  function HandlePost(s: State, body: Body, decodes: Decoder): (h: Handled)
    ensures h.response.Status() == StatusBadRequest <==> !decodes(body)
    ensures h.response.Status() == StatusOk <==> decodes(body)
    ensures !decodes(body) ==> h.state == s && h.response.Error() == "Invalid JSON"
    ensures decodes(body) ==> h.state == Accept(s)
  {
    if !decodes(body) then Handled(InvalidJson, s)
    else Handled(DataReceived, Accept(s))
  }

  /** The per-second sample: the delta is how far the total has moved past
      the previous baseline (modulo 2^64), and the total becomes the new
      baseline. The counters themselves are not touched. */
  function SecondTick(s: State): (r: State)
    ensures Add(s.lastRequests, r.requestsPerSecond) == s.totalRequests
    ensures s.lastRequests <= s.totalRequests ==>
              r.requestsPerSecond == s.totalRequests - s.lastRequests
    ensures r.lastRequests == s.totalRequests
    ensures r.totalRequests == s.totalRequests
    ensures r.lastMinuteRequests == s.lastMinuteRequests
    ensures r.requestsPerMinute == s.requestsPerMinute
  {
    SubInvertsAdd(s.totalRequests, s.lastRequests, 0);
    var delta := Sub(s.totalRequests, s.lastRequests);
    s.(lastRequests := s.totalRequests, requestsPerSecond := delta)
  }

  /** The per-minute sample: the accumulator is reported and reset in one
      step. The total and the second sampler's state are not touched. */
  function MinuteTick(s: State): (r: State)
    ensures r.requestsPerMinute == s.lastMinuteRequests
    ensures r.lastMinuteRequests == 0
    ensures r.totalRequests == s.totalRequests
    ensures r.lastRequests == s.lastRequests
    ensures r.requestsPerSecond == s.requestsPerSecond
  {
    s.(requestsPerMinute := s.lastMinuteRequests, lastMinuteRequests := 0)
  }

  /** One event applied to the state. */
  function Step(s: State, e: Event, decodes: Decoder): State {
    match e
    case Post(body) => HandlePost(s, body, decodes).state
    case Tick(Second) => SecondTick(s)
    case Tick(Minute) => MinuteTick(s)
  }

  /** Whether an event is a request that gets counted. */
  predicate Accepted(e: Event, decodes: Decoder) {
    e.Post? && decodes(e.body)
  }

  /** Neither baseline is ahead of the total. */
  predicate Inv(s: State) {
    s.lastRequests <= s.totalRequests && s.lastMinuteRequests <= s.totalRequests
  }

  /** Every event keeps the invariant, as long as the total does not wrap. */
  lemma StepPreservesInv(s: State, e: Event, decodes: Decoder)
    requires Inv(s)
    requires Accepted(e, decodes) ==> s.totalRequests < Max
    ensures Inv(Step(s, e, decodes))
  {
  }

  /** Without the no-wrap premise the invariant can break: one more request
      at the top of the range wraps the total below its baseline. */
  lemma WrapBreaksInv(decodes: Decoder, body: Body)
    requires decodes(body)
    ensures Inv(State(Max, Max, 0, 0, 0))
    ensures !Inv(Step(State(Max, Max, 0, 0, 0), Post(body), decodes))
  {
  }
}
