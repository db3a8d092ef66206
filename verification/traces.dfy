/** Runs of the telemetry state machine: a trace is the sequential
    interleaving of requests and timer ticks, each applied atomically. The
    lemmas relate the counters after a run to counts of events in the trace. */
module Traces {
  import opened Uint64
  import opened Telemetry

  /** The state after applying `t` to `s`, event by event. */
  function Run(s: State, t: seq<Event>, decodes: Decoder): State
    decreases |t|
  {
    if t == [] then s
    else Step(Run(s, t[..|t| - 1], decodes), t[|t| - 1], decodes)
  }

  /** 1 when `e` is a request that gets counted, 0 otherwise. */
  function AcceptedCount(e: Event, decodes: Decoder): nat {
    if Accepted(e, decodes) then 1 else 0
  }

  /** The number of accepted requests in `t`. */
  function CountAccepts(t: seq<Event>, decodes: Decoder): nat
    decreases |t|
  {
    if t == [] then 0
    else CountAccepts(t[..|t| - 1], decodes) + AcceptedCount(t[|t| - 1], decodes)
  }

  /** The number of accepted requests in `t` after its last tick of cadence
      `c`, or in all of `t` when there is none. */
  function AcceptsSince(t: seq<Event>, decodes: Decoder, c: Cadence): (n: nat)
    ensures n <= CountAccepts(t, decodes)
    decreases |t|
  {
    if t == [] then 0
    else if t[|t| - 1] == Tick(c) then 0
    else AcceptsSince(t[..|t| - 1], decodes, c) + AcceptedCount(t[|t| - 1], decodes)
  }

  /** The figure a tick of cadence `c` has just reported. */
  function Rate(s: State, c: Cadence): U64 {
    match c
    case Second => s.requestsPerSecond
    case Minute => s.requestsPerMinute
  }

  /** The figures reported by the ticks of cadence `c` in `t`, in order. */
  function Reports(s: State, t: seq<Event>, decodes: Decoder, c: Cadence): (rs: seq<U64>)
    decreases |t|
  {
    if t == [] then []
    else
      Reports(s, t[..|t| - 1], decodes, c)
      + (if t[|t| - 1] == Tick(c) then [Rate(Run(s, t, decodes), c)] else [])
  }

  function Sum(xs: seq<U64>): nat
    decreases |xs|
  {
    if xs == [] then 0 else Sum(xs[..|xs| - 1]) + xs[|xs| - 1]
  }

  lemma SumSnoc(xs: seq<U64>, x: U64)
    ensures Sum(xs + [x]) == Sum(xs) + x
  {
    assert (xs + [x])[..|xs|] == xs;
  }

  /** The total, the pending second delta and the minute accumulator of `s`
      are `n`, `ns` and `nm`, reduced modulo 2^64. */
  predicate Tracks(s: State, n: nat, ns: nat, nm: nat) {
    && s.totalRequests == n % Modulus
    && Sub(s.totalRequests, s.lastRequests) == ns % Modulus
    && s.lastMinuteRequests == nm % Modulus
  }

  /** One event moves the three tracked counts the way the trace counts move. */
  lemma TracksStep(s: State, e: Event, decodes: Decoder, n: nat, ns: nat, nm: nat)
    requires Tracks(s, n, ns, nm)
    ensures Tracks(Step(s, e, decodes),
                   n + AcceptedCount(e, decodes),
                   if e == Tick(Second) then 0 else ns + AcceptedCount(e, decodes),
                   if e == Tick(Minute) then 0 else nm + AcceptedCount(e, decodes))
  {
    match e
    case Post(body) =>
      if decodes(body) {
        IncMod(n);
        IncMod(ns);
        IncMod(nm);
        SubInc(s.totalRequests, s.lastRequests);
      }
    case Tick(Second) =>
      assert Sub(s.totalRequests, s.totalRequests) == 0;
    case Tick(Minute) =>
  }

  /** After any trace from the start, the total, the second sampler's
      pending delta and the minute accumulator are the corresponding counts
      of accepted requests, reduced modulo 2^64. */
  lemma {:induction false} RunTracksAccepts(t: seq<Event>, decodes: Decoder)
    ensures Run(Init, t, decodes).totalRequests == CountAccepts(t, decodes) % Modulus
    ensures Sub(Run(Init, t, decodes).totalRequests, Run(Init, t, decodes).lastRequests)
              == AcceptsSince(t, decodes, Second) % Modulus
    ensures Run(Init, t, decodes).lastMinuteRequests == AcceptsSince(t, decodes, Minute) % Modulus
    decreases |t|
  {
    if t == [] {
      assert Sub(0, 0) == 0;
    } else {
      var p := t[..|t| - 1];
      var e := t[|t| - 1];
      var n, ns, nm := CountAccepts(p, decodes), AcceptsSince(p, decodes, Second), AcceptsSince(p, decodes, Minute);
      var a := AcceptedCount(e, decodes);
      RunTracksAccepts(p, decodes);
      assert Tracks(Run(Init, p, decodes), n, ns, nm);
      TracksStep(Run(Init, p, decodes), e, decodes, n, ns, nm);
      assert Run(Init, t, decodes) == Step(Run(Init, p, decodes), e, decodes);
      assert CountAccepts(t, decodes) == n + a;
      assert AcceptsSince(t, decodes, Second) == if e == Tick(Second) then 0 else ns + a;
      assert AcceptsSince(t, decodes, Minute) == if e == Tick(Minute) then 0 else nm + a;
      assert Tracks(Run(Init, t, decodes), CountAccepts(t, decodes),
                    AcceptsSince(t, decodes, Second), AcceptsSince(t, decodes, Minute));
    }
  }

  /** A second tick reports exactly the requests accepted since the
      previous second tick (or since start), modulo 2^64; exactly, when fewer
      than 2^64 requests were accepted in all. */
  lemma SecondDeltaCountsAccepts(t: seq<Event>, decodes: Decoder)
    ensures Run(Init, t + [Tick(Second)], decodes).requestsPerSecond
              == AcceptsSince(t, decodes, Second) % Modulus
    ensures CountAccepts(t, decodes) < Modulus ==>
              Run(Init, t + [Tick(Second)], decodes).requestsPerSecond
                == AcceptsSince(t, decodes, Second)
  {
    assert (t + [Tick(Second)])[..|t|] == t;
    assert Run(Init, t + [Tick(Second)], decodes) == SecondTick(Run(Init, t, decodes));
    RunTracksAccepts(t, decodes);
  }

  /** A minute tick reports exactly the requests accepted since the
      previous minute tick (or since start), modulo 2^64; exactly, when fewer
      than 2^64 requests were accepted in all. */
  lemma MinuteCountsAccepts(t: seq<Event>, decodes: Decoder)
    ensures Run(Init, t + [Tick(Minute)], decodes).requestsPerMinute
              == AcceptsSince(t, decodes, Minute) % Modulus
    ensures CountAccepts(t, decodes) < Modulus ==>
              Run(Init, t + [Tick(Minute)], decodes).requestsPerMinute
                == AcceptsSince(t, decodes, Minute)
    ensures Run(Init, t + [Tick(Minute)], decodes).lastMinuteRequests == 0
  {
    assert (t + [Tick(Minute)])[..|t|] == t;
    assert Run(Init, t + [Tick(Minute)], decodes) == MinuteTick(Run(Init, t, decodes));
    RunTracksAccepts(t, decodes);
  }

  /** From the all-zero start, with fewer than 2^64 accepted requests,
      neither baseline ever overtakes the total. */
  lemma InvariantFromStart(t: seq<Event>, decodes: Decoder)
    requires CountAccepts(t, decodes) < Modulus
    ensures Inv(Run(Init, t, decodes))
    ensures Run(Init, t, decodes).totalRequests == CountAccepts(t, decodes)
    ensures Run(Init, t, decodes).lastRequests
              == CountAccepts(t, decodes) - AcceptsSince(t, decodes, Second)
  {
    RunTracksAccepts(t, decodes);
  }

  /** Telescoping, from any state: the deltas reported by the second ticks
      of a run add up, modulo 2^64, to how far the baseline moved over the run. */
  lemma {:induction false} DeltasTelescope(s: State, t: seq<Event>, decodes: Decoder)
    ensures Sum(Reports(s, t, decodes, Second)) % Modulus
              == Sub(Run(s, t, decodes).lastRequests, s.lastRequests)
    decreases |t|
  {
    if t == [] {
      assert Sub(s.lastRequests, s.lastRequests) == 0;
    } else {
      var p := t[..|t| - 1];
      var e := t[|t| - 1];
      var q := Run(s, p, decodes);
      DeltasTelescope(s, p, decodes);
      var rp := Reports(s, p, decodes, Second);
      assert Run(s, t, decodes) == Step(q, e, decodes);
      if e == Tick(Second) {
        var d := Sub(q.totalRequests, q.lastRequests);
        assert Reports(s, t, decodes, Second) == rp + [d];
        SumSnoc(rp, d);
        AddMod(Sum(rp), d);
        SubChain(q.totalRequests, q.lastRequests, s.lastRequests);
      } else {
        assert Reports(s, t, decodes, Second) == rp;
        assert Run(s, t, decodes).lastRequests == q.lastRequests;
      }
    }
  }

  /** Telescoping, exactly: from the start and with fewer than 2^64 accepted
      requests, the second deltas sum to the total as of the last second tick,
      which is every accepted request not still pending for the next tick. */
  lemma {:induction false} DeltasSumToBaseline(t: seq<Event>, decodes: Decoder)
    requires CountAccepts(t, decodes) < Modulus
    ensures Sum(Reports(Init, t, decodes, Second)) == Run(Init, t, decodes).lastRequests
    ensures Sum(Reports(Init, t, decodes, Second))
              == CountAccepts(t, decodes) - AcceptsSince(t, decodes, Second)
    decreases |t|
  {
    InvariantFromStart(t, decodes);
    if t != [] {
      var p := t[..|t| - 1];
      var e := t[|t| - 1];
      DeltasSumToBaseline(p, decodes);
      var rp := Reports(Init, p, decodes, Second);
      if e == Tick(Second) {
        SecondDeltaCountsAccepts(p, decodes);
        assert p + [e] == t;
        var d := AcceptsSince(p, decodes, Second);
        assert Reports(Init, t, decodes, Second) == rp + [d];
        SumSnoc(rp, d);
      } else {
        assert Reports(Init, t, decodes, Second) == rp;
      }
    }
  }

  /** Every accepted request is counted in exactly one minute window: the
      figures reported by the minute ticks plus the open accumulator add up
      to all accepted requests. */
  lemma {:induction false} MinuteWindowsPartitionAccepts(t: seq<Event>, decodes: Decoder)
    requires CountAccepts(t, decodes) < Modulus
    ensures Sum(Reports(Init, t, decodes, Minute)) + Run(Init, t, decodes).lastMinuteRequests
              == CountAccepts(t, decodes)
    decreases |t|
  {
    RunTracksAccepts(t, decodes);
    if t != [] {
      var p := t[..|t| - 1];
      var e := t[|t| - 1];
      MinuteWindowsPartitionAccepts(p, decodes);
      RunTracksAccepts(p, decodes);
      var rp := Reports(Init, p, decodes, Minute);
      if e == Tick(Minute) {
        var d := Run(Init, p, decodes).lastMinuteRequests;
        assert Run(Init, t, decodes).requestsPerMinute == d;
        assert Reports(Init, t, decodes, Minute) == rp + [d];
        SumSnoc(rp, d);
      } else {
        assert Reports(Init, t, decodes, Minute) == rp;
      }
    }
  }

  /** Within one minute window that opened together with a second window,
      the second deltas reported so far add up, modulo 2^64, to the minute
      accumulator as of the latest second tick: a minute tick right after
      the sixtieth second tick reports their sum. */
  lemma {:induction false} SecondsAddUpToMinute(s: State, w: seq<Event>, decodes: Decoder)
    requires s.lastRequests == s.totalRequests && s.lastMinuteRequests == 0
    requires Tick(Minute) !in w
    ensures Sum(Reports(s, w, decodes, Second)) % Modulus
              == Sub(Run(s, w, decodes).lastRequests, s.totalRequests)
    ensures Run(s, w, decodes).lastMinuteRequests
              == Sub(Run(s, w, decodes).totalRequests, s.totalRequests)
    ensures w != [] && w[|w| - 1] == Tick(Second) ==>
              Sum(Reports(s, w, decodes, Second)) % Modulus
                == Run(s, w + [Tick(Minute)], decodes).requestsPerMinute
    decreases |w|
  {
    DeltasTelescope(s, w, decodes);
    if w == [] {
      assert Sub(s.totalRequests, s.totalRequests) == 0;
    } else {
      var p := w[..|w| - 1];
      var e := w[|w| - 1];
      assert Tick(Minute) !in p by {
        assert forall i :: 0 <= i < |p| ==> p[i] == w[i];
      }
      SecondsAddUpToMinute(s, p, decodes);
      var q := Run(s, p, decodes);
      assert Run(s, w, decodes) == Step(q, e, decodes);
      if Accepted(e, decodes) {
        SubInc(q.totalRequests, s.totalRequests);
      }
      assert (w + [Tick(Minute)])[..|w|] == w;
    }
  }

  /** The exact bookkeeping of one minute window that opened together with
      a second window, with fewer than 2^64 requests accepted in it: the
      second deltas reported so far plus the pending delta, and the minute
      accumulator, each equal the requests accepted in the window. */
  lemma {:induction false} WindowCountsExactly(s: State, w: seq<Event>, decodes: Decoder)
    requires s.lastRequests == s.totalRequests && s.lastMinuteRequests == 0
    requires Tick(Minute) !in w
    requires CountAccepts(w, decodes) < Modulus
    ensures Sum(Reports(s, w, decodes, Second))
              + Sub(Run(s, w, decodes).totalRequests, Run(s, w, decodes).lastRequests)
              == CountAccepts(w, decodes)
    ensures Run(s, w, decodes).lastMinuteRequests == CountAccepts(w, decodes)
    decreases |w|
  {
    if w == [] {
      assert Sub(s.totalRequests, s.totalRequests) == 0;
    } else {
      var p := w[..|w| - 1];
      var e := w[|w| - 1];
      assert Tick(Minute) !in p by {
        assert forall i :: 0 <= i < |p| ==> p[i] == w[i];
      }
      WindowCountsExactly(s, p, decodes);
      var q := Run(s, p, decodes);
      var rp := Reports(s, p, decodes, Second);
      assert Run(s, w, decodes) == Step(q, e, decodes);
      match e
      case Post(body) =>
        assert Reports(s, w, decodes, Second) == rp;
        if decodes(body) {
          SubInc(q.totalRequests, q.lastRequests);
        }
      case Tick(Second) =>
        var d := Sub(q.totalRequests, q.lastRequests);
        assert Reports(s, w, decodes, Second) == rp + [d];
        SumSnoc(rp, d);
        assert Sub(q.totalRequests, q.totalRequests) == 0;
      case Tick(Minute) =>
        assert false;
    }
  }

  /** Exactly: a minute tick right after the last second tick of a window
      with fewer than 2^64 accepted requests reports the sum of that
      window's second deltas. */
  lemma SecondsSumToMinute(s: State, w: seq<Event>, decodes: Decoder)
    requires s.lastRequests == s.totalRequests && s.lastMinuteRequests == 0
    requires Tick(Minute) !in w
    requires CountAccepts(w, decodes) < Modulus
    requires w != [] && w[|w| - 1] == Tick(Second)
    ensures Sum(Reports(s, w, decodes, Second))
              == Run(s, w + [Tick(Minute)], decodes).requestsPerMinute
              == CountAccepts(w, decodes)
  {
    WindowCountsExactly(s, w, decodes);
    var r := Run(s, w, decodes);
    assert r == SecondTick(Run(s, w[..|w| - 1], decodes));
    assert Sub(r.totalRequests, r.lastRequests) == 0;
    assert (w + [Tick(Minute)])[..|w|] == w;
  }

  /** Five requests then a second tick report 5; a second tick with no
      requests in between then reports 0. */
  lemma FiveThenZero(decodes: Decoder, body: Body)
    requires decodes(body)
    ensures var t := [Post(body), Post(body), Post(body), Post(body), Post(body), Tick(Second)];
            Run(Init, t, decodes).requestsPerSecond == 5
            && Run(Init, t + [Tick(Second)], decodes).requestsPerSecond == 0
  {
    var e := Post(body);
    var posts := [e, e, e, e, e];
    assert [e][..0] == [] && [e, e][..1] == [e] && [e, e, e][..2] == [e, e];
    assert [e, e, e, e][..3] == [e, e, e] && posts[..4] == [e, e, e, e];
    assert AcceptsSince([e], decodes, Second) == 1;
    assert AcceptsSince([e, e], decodes, Second) == 2;
    assert AcceptsSince([e, e, e], decodes, Second) == 3;
    assert AcceptsSince([e, e, e, e], decodes, Second) == 4;
    SecondDeltaCountsAccepts(posts, decodes);
    var t := posts + [Tick(Second)];
    SecondDeltaCountsAccepts(t, decodes);
    assert [e, e, e, e, e, Tick(Second)] == t;
  }
}
