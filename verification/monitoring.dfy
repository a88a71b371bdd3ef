/** The usage counters of `UsageTracker`: requests, failures, accumulated
    generation time and per-provider counts. The provider dictionary is a
    multiset of provider names: a name's multiplicity is its count, and a
    name appears only once it has been counted. */
module Monitoring {
  import opened Options

  datatype Tracker = Tracker(requests: nat, errors: nat, totalTime: real, providerUsage: multiset<string>)

  /** A fresh tracker. */
  const Fresh := Tracker(0, 0, 0.0, multiset{})

  /** Python's truthiness of the `provider` argument: `None` and `''` are
      false. */
  predicate IsGiven(provider: Option<string>) {
    provider.Some? && provider.value != ""
  }

  /** `track_request(success, generation_time, provider)`. */
  function TrackRequest(t: Tracker, success: bool, generationTime: real, provider: Option<string>): (u: Tracker)
    ensures u.requests == t.requests + 1
    ensures u.errors == if success then t.errors else t.errors + 1
    ensures u.totalTime == t.totalTime + generationTime
    ensures IsGiven(provider) ==> u.providerUsage == t.providerUsage + multiset{provider.value}
    ensures !IsGiven(provider) ==> u.providerUsage == t.providerUsage
  {
    Tracker(t.requests + 1,
            if success then t.errors else t.errors + 1,
            t.totalTime + generationTime,
            if IsGiven(provider) then t.providerUsage + multiset{provider.value} else t.providerUsage)
  }

  /** The invariant: no more failures, and no more provider counts in
      total, than requests. */
  predicate Valid(t: Tracker) {
    t.errors <= t.requests && |t.providerUsage| <= t.requests
  }

  /** `track_request` keeps the invariant, from the fresh tracker on. */
  lemma TrackRequestKeepsValid(t: Tracker, success: bool, generationTime: real, provider: Option<string>)
    requires Valid(t)
    ensures Valid(TrackRequest(t, success, generationTime, provider))
    ensures Valid(Fresh)
  {
  }

  /** One call of `track_request`. */
  datatype Request = Request(success: bool, generationTime: real, provider: Option<string>)

  /** The tracker after a sequence of calls, oldest first. */
  function Replay(t: Tracker, calls: seq<Request>): Tracker
    decreases |calls|
  {
    if |calls| == 0 then t
    else Replay(TrackRequest(t, calls[0].success, calls[0].generationTime, calls[0].provider), calls[1..])
  }

  function Failures(calls: seq<Request>): nat {
    if |calls| == 0 then 0 else (if calls[0].success then 0 else 1) + Failures(calls[1..])
  }

  function TotalTime(calls: seq<Request>): real {
    if |calls| == 0 then 0.0 else calls[0].generationTime + TotalTime(calls[1..])
  }

  function GivenProviders(calls: seq<Request>): multiset<string> {
    if |calls| == 0 then multiset{}
    else (if IsGiven(calls[0].provider) then multiset{calls[0].provider.value} else multiset{})
         + GivenProviders(calls[1..])
  }

  lemma FailuresBound(calls: seq<Request>)
    ensures Failures(calls) <= |calls| && |GivenProviders(calls)| <= |calls|
  {
  }

  /** After any sequence of calls on a tracker, the counters have grown by
      exactly: the number of calls, the number of failed calls, the sum of
      the generation times, and one count per call that named a provider;
      and the invariant holds throughout. */
  lemma {:induction false} ReplayCounts(t: Tracker, calls: seq<Request>)
    requires Valid(t)
    ensures var u := Replay(t, calls);
      && u.requests == t.requests + |calls|
      && u.errors == t.errors + Failures(calls)
      && u.totalTime == t.totalTime + TotalTime(calls)
      && u.providerUsage == t.providerUsage + GivenProviders(calls)
      && Valid(u)
    decreases |calls|
  {
    if |calls| > 0 {
      var c := calls[0];
      TrackRequestKeepsValid(t, c.success, c.generationTime, c.provider);
      ReplayCounts(TrackRequest(t, c.success, c.generationTime, c.provider), calls[1..]);
    }
  }

  datatype Stats = Stats(requests: nat, errors: nat, errorRate: real, avgGenerationTime: real,
                         providerUsage: multiset<string>)

  function Max1(n: nat): (m: nat)
    ensures m >= 1 && m >= n
  {
    if n < 1 then 1 else n
  }

  /** `get_stats`: the divisions are by `max(requests, 1)`. */
  function GetStats(t: Tracker): Stats {
    Stats(t.requests, t.errors,
          t.errors as real / Max1(t.requests) as real,
          t.totalTime / Max1(t.requests) as real,
          t.providerUsage)
  }

  lemma RatioBounds(a: nat, b: nat)
    requires 0 < b && a <= b
    ensures 0.0 <= a as real / b as real <= 1.0
  {
    var q := a as real / b as real;
    assert q * b as real == a as real;
  }

  /** A fresh tracker reports a zero error rate and a zero average without
      dividing by zero; the error rate of a valid tracker is within [0, 1],
      and with at least one request the average times the request count is
      the total time. */
  lemma GetStatsSpec(t: Tracker)
    requires Valid(t)
    ensures GetStats(Fresh).errorRate == 0.0 && GetStats(Fresh).avgGenerationTime == 0.0
    ensures 0.0 <= GetStats(t).errorRate <= 1.0
    ensures t.requests > 0 ==> GetStats(t).avgGenerationTime * t.requests as real == t.totalTime
  {
    RatioBounds(t.errors, Max1(t.requests));
    if t.requests > 0 {
      var q := t.totalTime / t.requests as real;
      assert q * t.requests as real == t.totalTime;
    }
  }
}
