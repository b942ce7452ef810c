/**
 Cleanup deletes idle buckets. When an idle bucket has had time to refill, the deletion cannot be
 observed: the limiter gives the same answers as one that never cleans up.
 */
module CleanupInvisible {
  import opened Encoding
  import opened RateLimit

  // ---------------------------------------------------------------- reachable states

  /** Natural limits and a positive interval (time.NewTicker demands the latter). */
  predicate Sane(cfg: Config)
  {
    && cfg.global.burst >= 0 && cfg.global.rate >= 0 && cfg.address.burst >= 0 && cfg.address.rate >= 0
    && cfg.job.burst >= 0 && cfg.job.rate >= 0 && cfg.interval > 0.0
    && forall e :: e in cfg.endpoints ==> cfg.endpoints[e].burst >= 0 && cfg.endpoints[e].rate >= 0
  }

  predicate Natural(limit: Limit) { limit.burst >= 0 && limit.rate >= 0 }

  predicate BucketInv(limit: Limit, b: Bucket, now: real)
  {
    b.capacity == limit.burst as real && b.rate == limit.rate as real && 0.0 <= b.tokens <= b.capacity && b.last <= now
  }

  predicate BucketsInv(limit: Limit, m: Buckets, now: real)
  {
    forall k :: k in m ==> BucketInv(limit, m[k], now)
  }

  predicate Inv(cfg: Config, s: State, now: real)
  {
    && BucketInv(cfg.global, s.global, now)
    && BucketsInv(cfg.address, s.addresses, now)
    && BucketsInv(cfg.job, s.jobs, now)
    && s.endpoints.Keys == cfg.endpoints.Keys
    && forall e :: e in s.endpoints ==> BucketInv(cfg.endpoints[e], s.endpoints[e], now)
  }

  lemma FlowNonNegative(rate: real, d: real)
    requires rate >= 0.0 && d >= 0.0
    ensures Flow(rate, d) >= 0.0
  {
  }

  lemma FlowAdds(rate: real, d: real, e: real)
    ensures Flow(rate, d + e) == Flow(rate, d) + Flow(rate, e)
    ensures Flow(rate, 0.0) == 0.0
  {
  }

  lemma AvailableBounds(limit: Limit, b: Bucket, now: real, at: real)
    requires Natural(limit) && BucketInv(limit, b, now) && now <= at
    ensures b.tokens <= Available(b, at) <= b.capacity
  {
    FlowNonNegative(b.rate, at - b.last);
  }

  lemma TakeKeeps(limit: Limit, b: Bucket, now: real, at: real)
    requires Natural(limit) && BucketInv(limit, b, now) && now <= at
    ensures BucketInv(limit, Take(b, at), at)
  {
    AvailableBounds(limit, b, now, at);
  }

  lemma InitInv(cfg: Config, now: real)
    requires Sane(cfg)
    ensures Inv(cfg, Init(cfg, now), now)
  {
  }

  // ---------------------------------------------------------------- cleaned and never cleaned

  /** A bucket that is full again at now, and stays so until it is used. */
  predicate Refreshed(b: Bucket, now: real)
  {
    b.tokens + Flow(b.rate, now - b.last) >= b.capacity
  }

  /** a is b without some refreshed buckets. */
  predicate SimMap(a: Buckets, b: Buckets, now: real)
  {
    && a.Keys <= b.Keys
    && (forall k :: k in a ==> a[k] == b[k])
    && (forall k :: k in b && k !in a ==> Refreshed(b[k], now))
  }

  /** s is t after some cleanups. */
  predicate Sim(s: State, t: State, now: real)
  {
    && s.global == t.global && s.endpoints == t.endpoints
    && SimMap(s.addresses, t.addresses, now) && SimMap(s.jobs, t.jobs, now)
  }

  lemma RefreshedLater(limit: Limit, b: Bucket, now: real, at: real)
    requires Natural(limit) && BucketInv(limit, b, now) && Refreshed(b, now) && now <= at
    ensures Refreshed(b, at)
  {
    FlowNonNegative(b.rate, at - now);
    FlowAdds(b.rate, now - b.last, at - now);
  }

  lemma SimLater(limit: Limit, a: Buckets, b: Buckets, now: real, at: real)
    requires Natural(limit) && BucketsInv(limit, b, now) && SimMap(a, b, now) && now <= at
    ensures SimMap(a, b, at) && BucketsInv(limit, b, at)
  {
    forall k | k in b && k !in a
      ensures Refreshed(b[k], at)
    {
      RefreshedLater(limit, b[k], now, at);
    }
  }

  lemma SubsetSize(a: set<bytes>, b: set<bytes>)
    requires a <= b
    ensures |a| <= |b|
  {
    assert a + (b - a) == b;
  }

  /** A key set that is not larger than the bound leaves room for each of its keys. */
  lemma NoEviction(m: Buckets, key: bytes, max: int, keys: set<bytes>)
    requires m.Keys <= keys && key in keys && |keys| <= max
    ensures !Evicts(m, key, max)
  {
    if key !in m {
      assert m.Keys <= keys - {key};
      SubsetSize(m.Keys, keys - {key});
      assert |keys - {key}| == |keys| - 1;
    }
  }

  lemma SameAvailable(limit: Limit, p: Bucket, q: Bucket, at: real)
    requires Natural(limit) && BucketInv(limit, q, at)
    requires p == q || (p == NewBucket(limit.burst, limit.rate, at) && Refreshed(q, at))
    ensures Granted(p, at) == Granted(q, at) && Take(p, at) == Take(q, at)
  {
    if p != q {
      FlowAdds(p.rate, 0.0, 0.0);
      assert Available(p, at) == p.capacity == q.capacity == Available(q, at);
    }
  }

  /** A request that uses key finds the same tokens in both maps and leaves them related. */
  lemma TouchSim(limit: Limit, a: Buckets, b: Buckets, key: bytes, max: int, now: real, at: real, victim: bytes,
                 keys: set<bytes>)
    requires Natural(limit) && BucketsInv(limit, b, now) && SimMap(a, b, now) && now <= at
    requires b.Keys <= keys && key in keys && |keys| <= max
    ensures var p, q := GetOrCreate(a, key, max, limit, at, victim), GetOrCreate(b, key, max, limit, at, victim);
      && Granted(p[key], at) == Granted(q[key], at)
      && SimMap(p[key := Take(p[key], at)], q[key := Take(q[key], at)], at)
      && BucketsInv(limit, q[key := Take(q[key], at)], at)
      && q.Keys <= keys
  {
    SimLater(limit, a, b, now, at);
    NoEviction(a, key, max, keys);
    NoEviction(b, key, max, keys);
    var p, q := GetOrCreate(a, key, max, limit, at, victim), GetOrCreate(b, key, max, limit, at, victim);
    SameAvailable(limit, p[key], q[key], at);
    TakeKeeps(limit, q[key], at, at);
  }

  // ---------------------------------------------------------------- one step

  /** The address and job keys an event may create. */
  predicate Uses(e: Event, addresses: set<bytes>, jobs: set<bytes>)
  {
    match e
    case Allow(_, address, _, _) => address == [] || address in addresses
    case Submit(_, address, _, _) => (address == [] || address in addresses) && JobKey(address) in jobs
    case Cleanup(_) => true
  }

  predicate AllUse(events: seq<Event>, addresses: set<bytes>, jobs: set<bytes>)
  {
    forall i :: 0 <= i < |events| ==> Uses(events[i], addresses, jobs)
  }

  /** The related states, with their invariants and room for all the keys in use. */
  ghost predicate Related(cfg: Config, s: State, t: State, now: real, addresses: set<bytes>, jobs: set<bytes>)
  {
    && Sane(cfg) && Inv(cfg, t, now) && Sim(s, t, now)
    && t.addresses.Keys <= addresses && |addresses| <= cfg.maxTracked
    && t.jobs.Keys <= jobs && |jobs| <= cfg.maxTracked
  }

  ghost predicate SameOutcome(cfg: Config, o: Outcome, p: Outcome, at: real, addresses: set<bytes>, jobs: set<bytes>)
  {
    o.ok == p.ok && Related(cfg, o.state, p.state, at, addresses, jobs)
  }

  lemma RelatedLater(cfg: Config, s: State, t: State, now: real, at: real, addresses: set<bytes>, jobs: set<bytes>)
    requires Related(cfg, s, t, now, addresses, jobs) && now <= at
    ensures Related(cfg, s, t, at, addresses, jobs)
  {
    SimLater(cfg.address, s.addresses, t.addresses, now, at);
    SimLater(cfg.job, s.jobs, t.jobs, now, at);
  }

  lemma GlobalSim(cfg: Config, s: State, t: State, at: real, addresses: set<bytes>, jobs: set<bytes>)
    requires Related(cfg, s, t, at, addresses, jobs)
    ensures SameOutcome(cfg, TakeGlobal(s, at), TakeGlobal(t, at), at, addresses, jobs)
  {
    TakeKeeps(cfg.global, t.global, at, at);
  }

  lemma AddressSim(cfg: Config, s: State, t: State, at: real, address: bytes, victim: bytes, addresses: set<bytes>,
                   jobs: set<bytes>)
    requires Related(cfg, s, t, at, addresses, jobs) && (address == [] || address in addresses)
    ensures SameOutcome(cfg, TakeAddress(cfg, s, at, address, victim), TakeAddress(cfg, t, at, address, victim), at,
                        addresses, jobs)
  {
    if address != [] {
      TouchSim(cfg.address, s.addresses, t.addresses, address, cfg.maxTracked, at, at, victim, addresses);
    }
  }

  lemma EndpointSim(cfg: Config, s: State, t: State, at: real, endpoint: bytes, addresses: set<bytes>, jobs: set<bytes>)
    requires Related(cfg, s, t, at, addresses, jobs)
    ensures SameOutcome(cfg, TakeEndpoint(s, at, endpoint), TakeEndpoint(t, at, endpoint), at, addresses, jobs)
  {
    if endpoint in t.endpoints {
      TakeKeeps(cfg.endpoints[endpoint], t.endpoints[endpoint], at, at);
    }
  }

  lemma JobSim(cfg: Config, s: State, t: State, at: real, address: bytes, victim: bytes, addresses: set<bytes>,
               jobs: set<bytes>)
    requires Related(cfg, s, t, at, addresses, jobs) && JobKey(address) in jobs
    ensures SameOutcome(cfg, TakeJob(cfg, s, at, address, victim), TakeJob(cfg, t, at, address, victim), at,
                        addresses, jobs)
  {
    TouchSim(cfg.job, s.jobs, t.jobs, JobKey(address), cfg.maxTracked, at, at, victim, jobs);
  }

  /** A request is answered alike by the cleaned and the never cleaned limiter. */
  lemma {:induction false} RequestSim(cfg: Config, s: State, t: State, now: real, e: Event, addresses: set<bytes>,
                                      jobs: set<bytes>)
    requires Related(cfg, s, t, now, addresses, jobs) && now <= e.at && !e.Cleanup? && Uses(e, addresses, jobs)
    ensures SameOutcome(cfg, Step(cfg, s, e), Step(cfg, t, e), e.at, addresses, jobs)
  {
    RelatedLater(cfg, s, t, now, e.at, addresses, jobs);
    GlobalSim(cfg, s, t, e.at, addresses, jobs);
    var g, g' := TakeGlobal(s, e.at), TakeGlobal(t, e.at);
    if g.ok {
      AddressSim(cfg, g.state, g'.state, e.at, e.address, e.victim, addresses, jobs);
      var a := TakeAddress(cfg, g.state, e.at, e.address, e.victim);
      var a' := TakeAddress(cfg, g'.state, e.at, e.address, e.victim);
      if a.ok {
        match e {
          case Allow(at, _, endpoint, _) =>
            EndpointSim(cfg, a.state, a'.state, at, endpoint, addresses, jobs);
          case Submit(at, address, _, jobVictim) =>
            EndpointSim(cfg, a.state, a'.state, at, JOB_ENDPOINT, addresses, jobs);
            var p, p' := TakeEndpoint(a.state, at, JOB_ENDPOINT), TakeEndpoint(a'.state, at, JOB_ENDPOINT);
            if p.ok {
              JobSim(cfg, p.state, p'.state, at, address, jobVictim, addresses, jobs);
            }
        }
      }
    }
  }

  /** An idle bucket refills within the stale time. */
  predicate Recovers(limit: Limit, stale: real)
  {
    Flow(limit.rate as real, stale) >= limit.burst as real
  }

  lemma IdleRefreshed(limit: Limit, b: Bucket, now: real, stale: real)
    requires Natural(limit) && BucketInv(limit, b, now) && Recovers(limit, stale) && now - b.last > stale
    ensures Refreshed(b, now)
  {
    FlowNonNegative(b.rate, now - b.last - stale);
    FlowAdds(b.rate, stale, now - b.last - stale);
  }

  lemma SweepSim(limit: Limit, a: Buckets, b: Buckets, now: real, at: real, stale: real)
    requires Natural(limit) && BucketsInv(limit, b, now) && SimMap(a, b, now) && now <= at && Recovers(limit, stale)
    ensures SimMap(Sweep(a, at, stale), b, at) && BucketsInv(limit, b, at)
  {
    SimLater(limit, a, b, now, at);
    forall k | k in b && k !in Sweep(a, at, stale)
      ensures Refreshed(b[k], at)
    {
      if k in a {
        IdleRefreshed(limit, b[k], at, stale);
      }
    }
  }

  lemma CleanupSim(cfg: Config, s: State, t: State, now: real, at: real, addresses: set<bytes>, jobs: set<bytes>)
    requires Related(cfg, s, t, now, addresses, jobs) && now <= at
    requires Recovers(cfg.address, StaleTime(cfg)) && Recovers(cfg.job, StaleTime(cfg))
    ensures Related(cfg, CleanupStep(cfg, s, at), t, at, addresses, jobs)
  {
    RelatedLater(cfg, s, t, now, at, addresses, jobs);
    SweepSim(cfg.address, s.addresses, t.addresses, now, at, StaleTime(cfg));
    SweepSim(cfg.job, s.jobs, t.jobs, now, at, StaleTime(cfg));
  }

  // ---------------------------------------------------------------- whole runs

  lemma {:induction false} RunSim(cfg: Config, s: State, t: State, now: real, events: seq<Event>,
                                  addresses: set<bytes>, jobs: set<bytes>)
    requires Related(cfg, s, t, now, addresses, jobs) && Ordered(now, events) && AllUse(events, addresses, jobs)
    requires Recovers(cfg.address, StaleTime(cfg)) && Recovers(cfg.job, StaleTime(cfg))
    ensures Answers(cfg, s, events) == Answers(cfg, t, WithoutCleanup(events))
    ensures Related(cfg, After(cfg, s, events), After(cfg, t, WithoutCleanup(events)), EndTime(now, events),
                    addresses, jobs)
    decreases |events|
  {
    if events == [] {
    } else if events[0].Cleanup? {
      CleanupSim(cfg, s, t, now, events[0].at, addresses, jobs);
      RunSim(cfg, CleanupStep(cfg, s, events[0].at), t, events[0].at, events[1..], addresses, jobs);
      assert WithoutCleanup(events) == WithoutCleanup(events[1..]);
    } else {
      assert Uses(events[0], addresses, jobs);
      RequestSim(cfg, s, t, now, events[0], addresses, jobs);
      var o, p := Step(cfg, s, events[0]), Step(cfg, t, events[0]);
      RunSim(cfg, o.state, p.state, events[0].at, events[1..], addresses, jobs);
      assert WithoutCleanup(events)[1..] == WithoutCleanup(events[1..]);
    }
  }

  /** In every run whose distinct keys fit the tables, a limiter that is cleaned up at arbitrary
      times answers every request like one that never is. */
  lemma {:induction false} CleanupIsInvisible(cfg: Config, start: real, events: seq<Event>, addresses: set<bytes>,
                                              jobs: set<bytes>)
    requires Sane(cfg) && Ordered(start, events)
    requires AllUse(events, addresses, jobs) && |addresses| <= cfg.maxTracked && |jobs| <= cfg.maxTracked
    requires Recovers(cfg.address, StaleTime(cfg)) && Recovers(cfg.job, StaleTime(cfg))
    ensures Answers(cfg, Init(cfg, start), events) == Answers(cfg, Init(cfg, start), WithoutCleanup(events))
  {
    InitInv(cfg, start);
    RunSim(cfg, Init(cfg, start), Init(cfg, start), start, events, addresses, jobs);
  }
}
