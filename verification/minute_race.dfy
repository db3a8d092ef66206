/** The minute tick as the server writes it: one atomic load of the
    accumulator, then, as a separate atomic store, the reset to zero. Request
    handlers run concurrently with the sampler, so an accepted request can be
    counted between the two. This module models the two halves as separate
    steps and shows that such a request is counted in no minute window; the
    single-step `Telemetry.MinuteTick` (an atomic exchange) is the corrected
    form that the rest of the model uses. */
module MinuteRace {
  import opened Uint64
  import opened Telemetry

  /** First half: the accumulator is read and reported. */
  function MinuteLoad(s: State): (r: State)
    ensures r.requestsPerMinute == s.lastMinuteRequests
    ensures r.lastMinuteRequests == s.lastMinuteRequests
    ensures r.totalRequests == s.totalRequests && r.lastRequests == s.lastRequests
    ensures r.requestsPerSecond == s.requestsPerSecond
  {
    s.(requestsPerMinute := s.lastMinuteRequests)
  }

  /** Second half: the accumulator is overwritten with zero, whatever it holds now. */
  function MinuteStore(s: State): (r: State)
    ensures r.lastMinuteRequests == 0
    ensures r.requestsPerMinute == s.requestsPerMinute
    ensures r.totalRequests == s.totalRequests && r.lastRequests == s.lastRequests
    ensures r.requestsPerSecond == s.requestsPerSecond
  {
    s.(lastMinuteRequests := 0)
  }

  /** With nothing in between, the two halves are the atomic tick. */
  lemma SplitWithoutInterleavingIsTick(s: State)
    ensures MinuteStore(MinuteLoad(s)) == MinuteTick(s)
  {
  }

  /** As written: a request accepted between the load and the store raises
      the total but appears neither in the reported minute figure nor in
      the accumulator that starts the next window. */
  lemma LoadThenStoreLosesAccept(s: State)
    requires s.totalRequests < Max
    ensures var r := MinuteStore(Accept(MinuteLoad(s)));
            && r.totalRequests == s.totalRequests + 1
            && r.requestsPerMinute + r.lastMinuteRequests == s.lastMinuteRequests
  {
  }

  /** The same loss on a concrete run from the start: one request, the
      load, a second request, the store. Two requests were accepted, yet the
      minute tick reports 1 and the next window starts at 0. */
  lemma LoadThenStoreCounterexample()
    ensures var r := MinuteStore(Accept(MinuteLoad(Accept(Init))));
            && r.totalRequests == 2
            && r.requestsPerMinute == 1
            && r.lastMinuteRequests == 0
  {
  }

  /** Corrected: with the exchange as one step, a request accepted just
      before or just after the tick is counted in exactly one of the two
      windows, so the reported figure plus the new accumulator account for
      every request. */
  lemma ExchangeCountsEveryAccept(s: State)
    requires s.lastMinuteRequests < Max
    ensures var before := MinuteTick(Accept(s));
            before.requestsPerMinute == s.lastMinuteRequests + 1 && before.lastMinuteRequests == 0
    ensures var after := Accept(MinuteTick(s));
            after.requestsPerMinute == s.lastMinuteRequests && after.lastMinuteRequests == 1
  {
  }
}
