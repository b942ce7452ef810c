/**
 The exact law of one call of the limiter: which requests are granted, which limits they are charged
 to, what a fresh limiter holds, and what a cleanup keeps.
 */
module GrantLaw {
  import opened Encoding
  import opened RateLimit
  import opened CleanupInvisible
  import opened RateWindow

  // ---------------------------------------------------------------- grants

  /** Every limit the request is subject to has a token. */
  ghost predicate AllHaveToken(cfg: Config, s: State, e: Event)
    requires s.endpoints.Keys == cfg.endpoints.Keys
  {
    forall m :: Exists(cfg, m) && Counts(m, e) ==> Level(cfg, s, m, e.at) >= 1.0
  }

  /** The limits of a request, in the order they are checked. */
  function Limits(e: Event): seq<Meter>
    requires !e.Cleanup?
  {
    [Global, Address(e.address), Endpoint(EndpointOf(e))] + if e.Submit? then [Job(e.address)] else []
  }

  lemma CountsIffListed(cfg: Config, e: Event, m: Meter)
    requires !e.Cleanup? && Exists(cfg, m)
    ensures Counts(m, e) <==> m in Limits(e)
  {
    var l := Limits(e);
    assert l[0] == Global && l[1] == Address(e.address) && l[2] == Endpoint(EndpointOf(e));
    if e.Submit? {
      assert l[3] == Job(e.address);
    }
  }

  /** The limit, if there is one, has a token. */
  predicate Passes(cfg: Config, s: State, m: Meter, at: real)
    requires s.endpoints.Keys == cfg.endpoints.Keys
  {
    Exists(cfg, m) ==> Level(cfg, s, m, at) >= 1.0
  }

  predicate AllPass(cfg: Config, s: State, e: Event)
    requires s.endpoints.Keys == cfg.endpoints.Keys && !e.Cleanup?
  {
    && Passes(cfg, s, Global, e.at) && Passes(cfg, s, Address(e.address), e.at)
    && Passes(cfg, s, Endpoint(EndpointOf(e)), e.at) && (e.Submit? ==> Passes(cfg, s, Job(e.address), e.at))
  }

  lemma AllPassIff(cfg: Config, s: State, e: Event)
    requires s.endpoints.Keys == cfg.endpoints.Keys && !e.Cleanup?
    ensures AllPass(cfg, s, e) <==> AllHaveToken(cfg, s, e)
  {
    assert Counts(Global, e) && Counts(Address(e.address), e) && Counts(Endpoint(EndpointOf(e)), e);
    assert e.Submit? ==> Counts(Job(e.address), e);
    if AllPass(cfg, s, e) {
      forall m | Exists(cfg, m) && Counts(m, e)
        ensures Level(cfg, s, m, e.at) >= 1.0
      {
        CountsIffListed(cfg, e, m);
      }
    }
  }

  lemma NewLevel(limit: Limit, now: real)
    requires limit.burst >= 0
    ensures Available(NewBucket(limit.burst, limit.rate, now), now) == limit.burst as real
  {
    FlowAdds(limit.rate as real, 0.0, 0.0);
  }

  /** A check against a table grants exactly when the level is a whole token. */
  lemma TouchGranted(limit: Limit, m: Buckets, key: bytes, max: int, at: real, victim: bytes)
    requires limit.burst >= 0
    ensures Granted(GetOrCreate(m, key, max, limit, at, victim)[key], at) <==> LevelIn(m, key, limit, at) >= 1.0
  {
    NewLevel(limit, at);
  }

  /** A request is granted exactly when every limit it is subject to has a token. An endpoint without a
      configured limit, and an empty address, subject it to none. */
  lemma {:induction false} GrantedIff(cfg: Config, s: State, e: Event)
    requires s.endpoints.Keys == cfg.endpoints.Keys && cfg.address.burst >= 0 && cfg.job.burst >= 0 && !e.Cleanup?
    ensures Step(cfg, s, e).ok <==> AllHaveToken(cfg, s, e)
  {
    AllPassIff(cfg, s, e);
    TouchGranted(cfg.address, s.addresses, e.address, cfg.maxTracked, e.at, e.victim);
    if e.Submit? {
      TouchGranted(cfg.job, s.jobs, JobKey(e.address), cfg.maxTracked, e.at, e.jobVictim);
    }
  }

  // ---------------------------------------------------------------- charges

  /** The place of a limit in the order of the checks. */
  function Rank(m: Meter): nat
  {
    match m
    case Global => 0
    case Address(_) => 1
    case Endpoint(_) => 2
    case Job(_) => 3
  }

  /** The request is subject to m, and m and every limit checked before it have a token. */
  ghost predicate Charged(cfg: Config, s: State, e: Event, m: Meter)
    requires s.endpoints.Keys == cfg.endpoints.Keys
  {
    Counts(m, e) &&
    forall k :: Exists(cfg, k) && Counts(k, e) && Rank(k) <= Rank(m) ==> Level(cfg, s, k, e.at) >= 1.0
  }

  /** The same, limit by limit. */
  predicate ChargedInTurn(cfg: Config, s: State, e: Event, m: Meter)
    requires s.endpoints.Keys == cfg.endpoints.Keys && !e.Cleanup?
  {
    && Counts(m, e) && Passes(cfg, s, Global, e.at)
    && (!m.Global? ==> Passes(cfg, s, Address(e.address), e.at))
    && (m.Endpoint? || m.Job? ==> Passes(cfg, s, Endpoint(EndpointOf(e)), e.at))
    && (m.Job? ==> Passes(cfg, s, m, e.at))
  }

  lemma ChargedIff(cfg: Config, s: State, e: Event, m: Meter)
    requires s.endpoints.Keys == cfg.endpoints.Keys && !e.Cleanup? && Exists(cfg, m)
    ensures Charged(cfg, s, e, m) <==> ChargedInTurn(cfg, s, e, m)
  {
    assert Counts(Global, e) && Counts(Address(e.address), e) && Counts(Endpoint(EndpointOf(e)), e);
    if ChargedInTurn(cfg, s, e, m) {
      forall k | Exists(cfg, k) && Counts(k, e) && Rank(k) <= Rank(m)
        ensures Level(cfg, s, k, e.at) >= 1.0
      {
        CountsIffListed(cfg, e, k);
      }
    }
  }

  /** What a check against a table does to the level of a key that keeps its bucket. */
  lemma TouchExact(limit: Limit, m: Buckets, key: bytes, max: int, at: real, victim: bytes, name: bytes)
    requires Natural(limit) && BucketsInv(limit, m, at)
    requires name in m ==> name in GetOrCreate(m, key, max, limit, at, victim)
    ensures var r := GetOrCreate(m, key, max, limit, at, victim);
      LevelIn(r[key := Take(r[key], at)], name, limit, at)
      == LevelIn(m, name, limit, at) - (if key == name && LevelIn(m, name, limit, at) >= 1.0 then 1.0 else 0.0)
  {
    if key == name {
      var r := GetOrCreate(m, key, max, limit, at, victim);
      NewLevel(limit, at);
      LevelAfterTake(limit, r[key], at);
    }
  }

  lemma EndpointKeysKept(cfg: Config, s: State, e: Event)
    ensures Step(cfg, s, e).state.endpoints.Keys == s.endpoints.Keys
  {
  }

  lemma ChargeGlobal(cfg: Config, s: State, e: Event)
    requires Sane(cfg) && Inv(cfg, s, e.at) && !e.Cleanup?
    ensures var t := Step(cfg, s, e).state;
      && t.endpoints.Keys == s.endpoints.Keys
      && Level(cfg, t, Global, e.at)
         == Level(cfg, s, Global, e.at) - (if ChargedInTurn(cfg, s, e, Global) then 1.0 else 0.0)
  {
    StepStages(cfg, s, e);
    LevelAfterTake(cfg.global, s.global, e.at);
    EndpointKeysKept(cfg, s, e);
  }

  lemma ChargeAddress(cfg: Config, s: State, e: Event, name: bytes)
    requires Sane(cfg) && Inv(cfg, s, e.at) && !e.Cleanup? && name != [] && KeepsBucket(cfg, s, e, Address(name))
    ensures var t := Step(cfg, s, e).state;
      && t.endpoints.Keys == s.endpoints.Keys
      && Level(cfg, t, Address(name), e.at)
         == Level(cfg, s, Address(name), e.at) - (if ChargedInTurn(cfg, s, e, Address(name)) then 1.0 else 0.0)
  {
    StepStages(cfg, s, e);
    EndpointKeysKept(cfg, s, e);
    if Granted(s.global, e.at) && e.address != [] {
      TouchExact(cfg.address, s.addresses, e.address, cfg.maxTracked, e.at, e.victim, name);
    }
  }

  lemma ChargeEndpoint(cfg: Config, s: State, e: Event, name: bytes)
    requires Sane(cfg) && Inv(cfg, s, e.at) && !e.Cleanup? && name != [] && name in cfg.endpoints
    ensures var t := Step(cfg, s, e).state;
      && t.endpoints.Keys == s.endpoints.Keys
      && Level(cfg, t, Endpoint(name), e.at)
         == Level(cfg, s, Endpoint(name), e.at) - (if ChargedInTurn(cfg, s, e, Endpoint(name)) then 1.0 else 0.0)
  {
    StepStages(cfg, s, e);
    EndpointKeysKept(cfg, s, e);
    TouchGranted(cfg.address, s.addresses, e.address, cfg.maxTracked, e.at, e.victim);
    LevelAfterTake(cfg.endpoints[name], s.endpoints[name], e.at);
  }

  lemma JobKeys(a: bytes, b: bytes)
    ensures JobKey(a) == JobKey(b) <==> a == b
  {
    assert JobKey(a)[4..] == a && JobKey(b)[4..] == b;
  }

  lemma ChargeJob(cfg: Config, s: State, e: Event, name: bytes)
    requires Sane(cfg) && Inv(cfg, s, e.at) && !e.Cleanup? && KeepsBucket(cfg, s, e, Job(name))
    ensures var t := Step(cfg, s, e).state;
      && t.endpoints.Keys == s.endpoints.Keys
      && Level(cfg, t, Job(name), e.at)
         == Level(cfg, s, Job(name), e.at) - (if ChargedInTurn(cfg, s, e, Job(name)) then 1.0 else 0.0)
  {
    JobStage(cfg, s, e);
    EndpointKeysKept(cfg, s, e);
    TouchGranted(cfg.address, s.addresses, e.address, cfg.maxTracked, e.at, e.victim);
    if Reached(cfg, s, e) {
      JobKeys(e.address, name);
      TouchExact(cfg.job, s.jobs, JobKey(e.address), cfg.maxTracked, e.at, e.jobVictim, JobKey(name));
    }
  }

  /** Every limit is charged one token for exactly the requests subject to it that get as far as its check and
      find a token there; all other levels stay as they were. So a request that a later check denies has
      still paid the earlier ones. */
  lemma {:induction false} ChargeLaw(cfg: Config, s: State, e: Event, m: Meter)
    requires Sane(cfg) && Inv(cfg, s, e.at) && !e.Cleanup? && Exists(cfg, m) && KeepsBucket(cfg, s, e, m)
    ensures var t := Step(cfg, s, e).state;
      && t.endpoints.Keys == s.endpoints.Keys
      && Level(cfg, t, m, e.at) == Level(cfg, s, m, e.at) - (if Charged(cfg, s, e, m) then 1.0 else 0.0)
  {
    ChargedIff(cfg, s, e, m);
    match m {
      case Global => ChargeGlobal(cfg, s, e);
      case Address(name) => ChargeAddress(cfg, s, e, name);
      case Endpoint(name) => ChargeEndpoint(cfg, s, e, name);
      case Job(name) => ChargeJob(cfg, s, e, name);
    }
  }

  // ---------------------------------------------------------------- fresh limiters, refills and cleanups

  /** A fresh limiter has every limit at its burst. */
  lemma {:induction false} FreshIsFull(cfg: Config, now: real, m: Meter)
    requires Sane(cfg) && Exists(cfg, m)
    ensures Level(cfg, Init(cfg, now), m, now) == LimitOf(cfg, m).burst as real
  {
    NewLevel(LimitOf(cfg, m), now);
  }

  /** A level after d seconds: refilled at the limit's rate per second, up to its burst. */
  function Refilled(limit: Limit, level: real, d: real): real
  {
    var full, sum := limit.burst as real, level + d * limit.rate as real;
    if full < sum then full else sum
  }

  lemma RefillOne(limit: Limit, b: Bucket, now: real, at: real)
    requires Natural(limit) && BucketInv(limit, b, now) && now <= at
    ensures Available(b, at) == Refilled(limit, Available(b, now), at - now)
  {
    FlowNonNegative(b.rate, at - now);
    FlowAdds(b.rate, now - b.last, at - now);
    assert Flow(b.rate, at - now) == (at - now) * limit.rate as real;
  }

  lemma RefillIn(limit: Limit, m: Buckets, key: bytes, now: real, at: real)
    requires Natural(limit) && BucketsInv(limit, m, now) && now <= at
    ensures LevelIn(m, key, limit, at) == Refilled(limit, LevelIn(m, key, limit, now), at - now)
  {
    if key in m {
      RefillOne(limit, m[key], now, at);
    } else {
      FlowNonNegative(limit.rate as real, at - now);
      assert Flow(limit.rate as real, at - now) == (at - now) * limit.rate as real;
    }
  }

  /** Between calls every limit refills at its rate up to its burst. */
  lemma {:induction false} RefillLaw(cfg: Config, s: State, m: Meter, now: real, at: real)
    requires Sane(cfg) && Inv(cfg, s, now) && Exists(cfg, m) && now <= at
    ensures Level(cfg, s, m, at) == Refilled(LimitOf(cfg, m), Level(cfg, s, m, now), at - now)
  {
    match m {
      case Global => RefillOne(cfg.global, s.global, now, at);
      case Endpoint(name) => RefillOne(cfg.endpoints[name], s.endpoints[name], now, at);
      case Address(name) => RefillIn(cfg.address, s.addresses, name, now, at);
      case Job(name) => RefillIn(cfg.job, s.jobs, JobKey(name), now, at);
    }
  }
}
