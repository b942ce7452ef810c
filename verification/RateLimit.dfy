/**
 The token-bucket rate limiter of app/ratelimit.go as a state machine: one event is one call, made
 at one instant. Tokens are real numbers and the clock never runs backwards.
 */
module RateLimit {
  import opened Encoding

  // ---------------------------------------------------------------- token buckets

  datatype Bucket = Bucket(tokens: real, capacity: real, rate: real, last: real)

  function Min(a: real, b: real): real { if a < b then a else b }

  /** NewTokenBucket: full. */
  function NewBucket(burst: int, rate: int, now: real): Bucket
  {
    Bucket(burst as real, burst as real, rate as real, now)
  }

  /** What flows in at a rate over a duration. */
  function Flow(rate: real, d: real): real { d * rate }

  /** The tokens a bucket has at an instant, before any are taken. */
  function Available(b: Bucket, now: real): real
  {
    Min(b.capacity, b.tokens + Flow(b.rate, now - b.last))
  }

  /** TokenBucket.Take(n): the bucket afterwards, and whether there were n tokens. */
  function TakeN(b: Bucket, n: real, now: real): (Bucket, bool)
  {
    var ok := Available(b, now) >= n;
    (b.(tokens := Available(b, now) - (if ok then n else 0.0), last := now), ok)
  }

  /** Every caller takes one token. */
  function Take(b: Bucket, now: real): Bucket { TakeN(b, 1.0, now).0 }

  predicate Granted(b: Bucket, now: real) { TakeN(b, 1.0, now).1 }

  // ---------------------------------------------------------------- the limiter

  datatype Limit = Limit(burst: int, rate: int)

  datatype Config = Config(
    global: Limit,
    address: Limit,
    job: Limit,
    endpoints: map<bytes, Limit>,
    interval: real,
    maxTracked: int)

  type Buckets = map<bytes, Bucket>

  datatype State = State(global: Bucket, addresses: Buckets, jobs: Buckets, endpoints: Buckets)

  const JOB_ENDPOINT: bytes := Ascii("/aethelred.pouw.v1.MsgSubmitJob")

  function JobKey(address: bytes): bytes { Ascii("job:") + address }

  function InitBuckets(limits: map<bytes, Limit>, now: real): Buckets
  {
    map e | e in limits :: NewBucket(limits[e].burst, limits[e].rate, now)
  }

  /** NewRateLimiter. */
  function Init(cfg: Config, now: real): State
  {
    State(NewBucket(cfg.global.burst, cfg.global.rate, now), map[], map[], InitBuckets(cfg.endpoints, now))
  }

  /** A request or a cleanup. Where a full map must evict, victim names the bucket that goes: the
      code picks one with the oldest last use, which need not be unique. */
  datatype Event =
    | Allow(at: real, address: bytes, endpoint: bytes, victim: bytes)
    | Submit(at: real, address: bytes, victim: bytes, jobVictim: bytes)
    | Cleanup(at: real)

  predicate Evicts(m: Buckets, key: bytes, max: int)
  {
    key !in m && |m| >= max && m != map[]
  }

  /** evictStalestBucket may remove victim. */
  predicate Stalest(m: Buckets, victim: bytes)
  {
    victim in m && forall k :: k in m ==> m[victim].last <= m[k].last
  }

  /** getOrCreateBucket: the map with the bucket for key in it. */
  function GetOrCreate(m: Buckets, key: bytes, max: int, limit: Limit, now: real, victim: bytes): (r: Buckets)
    ensures key in r
  {
    if key in m then m
    else (if Evicts(m, key, max) then m - {victim} else m)[key := NewBucket(limit.burst, limit.rate, now)]
  }

  /** A request of an address comes as far as the address check, which must evict. */
  predicate EvictsAddress(cfg: Config, s: State, now: real, address: bytes)
  {
    address != [] && Granted(s.global, now) && Evicts(s.addresses, address, cfg.maxTracked)
  }

  datatype Outcome = Outcome(state: State, ok: bool)

  function TakeGlobal(s: State, now: real): Outcome
  {
    Outcome(s.(global := Take(s.global, now)), Granted(s.global, now))
  }

  /** The per-address check, skipped for the empty address. */
  function TakeAddress(cfg: Config, s: State, now: real, address: bytes, victim: bytes): Outcome
  {
    if address == [] then Outcome(s, true)
    else
      var m := GetOrCreate(s.addresses, address, cfg.maxTracked, cfg.address, now, victim);
      Outcome(s.(addresses := m[address := Take(m[address], now)]), Granted(m[address], now))
  }

  /** The per-endpoint check, skipped for an endpoint without a limit. */
  function TakeEndpoint(s: State, now: real, endpoint: bytes): Outcome
  {
    if endpoint !in s.endpoints then Outcome(s, true)
    else
      Outcome(s.(endpoints := s.endpoints[endpoint := Take(s.endpoints[endpoint], now)]),
              Granted(s.endpoints[endpoint], now))
  }

  function TakeJob(cfg: Config, s: State, now: real, address: bytes, victim: bytes): Outcome
  {
    var key := JobKey(address);
    var m := GetOrCreate(s.jobs, key, cfg.maxTracked, cfg.job, now, victim);
    Outcome(s.(jobs := m[key := Take(m[key], now)]), Granted(m[key], now))
  }

  /** The checks that every request meets first. */
  function CallerStep(cfg: Config, s: State, now: real, address: bytes, victim: bytes): Outcome
  {
    var g := TakeGlobal(s, now);
    if !g.ok then g else TakeAddress(cfg, g.state, now, address, victim)
  }

  /** The checks that only a submission meets. */
  function SubmissionStep(cfg: Config, s: State, now: real, address: bytes, jobVictim: bytes): Outcome
  {
    var e := TakeEndpoint(s, now, JOB_ENDPOINT);
    if !e.ok then e else TakeJob(cfg, e.state, now, address, jobVictim)
  }

  /** The checks of a request, in order; the first that fails decides. */
  function AllowStep(cfg: Config, s: State, now: real, address: bytes, endpoint: bytes, victim: bytes): Outcome
  {
    var a := CallerStep(cfg, s, now, address, victim);
    if !a.ok || endpoint == [] then a else TakeEndpoint(a.state, now, endpoint)
  }

  function SubmitStep(cfg: Config, s: State, now: real, address: bytes, victim: bytes, jobVictim: bytes): Outcome
  {
    var a := CallerStep(cfg, s, now, address, victim);
    if !a.ok then a else SubmissionStep(cfg, a.state, now, address, jobVictim)
  }

  /** Buckets not used for more than twice the cleanup interval are dropped. */
  function Sweep(m: Buckets, now: real, stale: real): Buckets
  {
    map k | k in m && !(now - m[k].last > stale) :: m[k]
  }

  function SweepAddresses(s: State, now: real, stale: real): State
  {
    s.(addresses := Sweep(s.addresses, now, stale))
  }

  function SweepJobs(s: State, now: real, stale: real): State
  {
    s.(jobs := Sweep(s.jobs, now, stale))
  }

  /** How long a bucket may be idle: twice the cleanup interval. */
  function StaleTime(cfg: Config): real { cfg.interval * 2.0 }

  /** Exactly the buckets last used at most twice the interval ago are left, as they were. */
  ghost predicate Swept(cfg: Config, m: Buckets, at: real, r: Buckets)
  {
    forall k :: (k in r <==> k in m && at - m[k].last <= 2.0 * cfg.interval) && (k in r ==> r[k] == m[k])
  }

  function CleanupStep(cfg: Config, s: State, now: real): State
  {
    SweepJobs(SweepAddresses(s, now, StaleTime(cfg)), now, StaleTime(cfg))
  }

  function Step(cfg: Config, s: State, e: Event): Outcome
  {
    match e
    case Allow(at, address, endpoint, victim) => AllowStep(cfg, s, at, address, endpoint, victim)
    case Submit(at, address, victim, jobVictim) => SubmitStep(cfg, s, at, address, victim, jobVictim)
    case Cleanup(at) => Outcome(CleanupStep(cfg, s, at), true)
  }

  /** The state after a run. */
  function After(cfg: Config, s: State, events: seq<Event>): State
    decreases |events|
  {
    if events == [] then s else After(cfg, Step(cfg, s, events[0]).state, events[1..])
  }

  /** The answers to the requests of a run, in order. */
  function Answers(cfg: Config, s: State, events: seq<Event>): seq<bool>
    decreases |events|
  {
    if events == [] then []
    else
      var o := Step(cfg, s, events[0]);
      (if events[0].Cleanup? then [] else [o.ok]) + Answers(cfg, o.state, events[1..])
  }

  function WithoutCleanup(events: seq<Event>): seq<Event>
  {
    if events == [] then []
    else (if events[0].Cleanup? then [] else [events[0]]) + WithoutCleanup(events[1..])
  }

  /** The clock, from now on, never runs backwards. */
  predicate Ordered(now: real, events: seq<Event>)
    decreases |events|
  {
    events == [] || (now <= events[0].at && Ordered(events[0].at, events[1..]))
  }

  /** The time of the last event. */
  function EndTime(now: real, events: seq<Event>): real
    decreases |events|
  {
    if events == [] then now else EndTime(events[0].at, events[1..])
  }

  /** A request leaves the address table alone or touches one of its buckets. */
  lemma StepAddresses(cfg: Config, s: State, e: Event)
    requires !e.Cleanup?
    ensures var o := Step(cfg, s, e).state;
      var m := GetOrCreate(s.addresses, e.address, cfg.maxTracked, cfg.address, e.at, e.victim);
      o.addresses == s.addresses || (e.address != [] && o.addresses == m[e.address := Take(m[e.address], e.at)])
  {
  }

  /** And the job table likewise. */
  lemma StepJobs(cfg: Config, s: State, e: Event)
    requires !e.Cleanup?
    ensures var o, key := Step(cfg, s, e).state, JobKey(e.address);
      if e.Allow? then o.jobs == s.jobs
      else
        var m := GetOrCreate(s.jobs, key, cfg.maxTracked, cfg.job, e.at, e.jobVictim);
        o.jobs == s.jobs || o.jobs == m[key := Take(m[key], e.at)]
  {
  }
}
