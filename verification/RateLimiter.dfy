/**
 The RateLimiter and TokenBucket objects of app/ratelimit.go, proved to follow the state machine of
 module RateLimit. Each method is one atomic step that reads the clock once; metrics and locks are
 left out.
 */
module RateLimiter {
  import opened Encoding
  import opened RateLimit

  datatype Kind = Everyone | Addresses | Jobs | Endpoints

  /** Which limit a bucket serves; no two buckets of a limiter serve the same one. */
  datatype Tag = Tag(kind: Kind, key: bytes)

  class TokenBucket {
    var tokens: real
    const capacity: real
    const rate: real
    var lastTime: real
    ghost const tag: Tag

    function Value(): Bucket
      reads this
    {
      Bucket(tokens, capacity, rate, lastTime)
    }

    constructor (limit: Limit, now: real, ghost t: Tag)
      ensures Value() == NewBucket(limit.burst, limit.rate, now) && tag == t
    {
      tokens := limit.burst as real;
      capacity := limit.burst as real;
      rate := limit.rate as real;
      lastTime := now;
      tag := t;
    }

    method Take(n: real, now: real) returns (ok: bool)
      modifies this
      ensures (Value(), ok) == TakeN(old(Value()), n, now)
      ensures n == 1.0 ==> Value() == RateLimit.Take(old(Value()), now) && ok == Granted(old(Value()), now)
    {
      var elapsed := now - lastTime;
      lastTime := now;
      tokens := Min(capacity, tokens + Flow(rate, elapsed));
      if tokens >= n {
        tokens := tokens - n;
        return true;
      }
      return false;
    }
  }

  type BucketMap = map<bytes, TokenBucket>

  /** The buckets of m belong to repr and have the values v. */
  ghost predicate Mirrors(repr: set<TokenBucket>, m: BucketMap, v: Buckets)
    reads repr
  {
    m.Keys == v.Keys &&
    forall k :: k in m ==> m[k] in repr && v[k] == Bucket(m[k].tokens, m[k].capacity, m[k].rate, m[k].lastTime)
  }

  /** Every bucket serves the limit it is filed under. */
  ghost predicate Tagged(m: BucketMap, kind: Kind)
  {
    forall k :: k in m ==> m[k].tag == Tag(kind, k)
  }

  lemma MirrorsWiden(repr: set<TokenBucket>, more: set<TokenBucket>, m: BucketMap, v: Buckets)
    requires Mirrors(repr, m, v) && repr <= more
    ensures Mirrors(more, m, v)
  {
  }

  /** evictStalestBucket: a key whose bucket was used least recently, whatever the iteration order. */
  method FindStalest(ghost repr: set<TokenBucket>, m: BucketMap, ghost v: Buckets) returns (stalestKey: bytes)
    requires m != map[] && Mirrors(repr, m, v)
    ensures Stalest(v, stalestKey)
  {
    var left := m.Keys;
    var k :| k in left;
    stalestKey := k;
    left := left - {k};
    while left != {}
      invariant left <= m.Keys && stalestKey in m && stalestKey !in left
      invariant forall j :: j in m.Keys - left ==> m[stalestKey].lastTime <= m[j].lastTime
      decreases left
    {
      var j :| j in left;
      left := left - {j};
      if m[j].lastTime < m[stalestKey].lastTime {
        stalestKey := j;
      }
    }
    forall j | j in v
      ensures v[stalestKey].last <= v[j].last
    {
      assert m[j].lastTime == v[j].last;
    }
  }

  lemma SameSize(keys: set<bytes>, m: BucketMap, v: Buckets)
    requires m.Keys == keys && v.Keys == keys
    ensures |m| == |v| && (m == map[] <==> v == map[])
  {
    assert |m| == |m.Keys| && |v| == |v.Keys|;
  }

  /** getOrCreateBucket. Only a new bucket is allocated; no existing one changes. */
  method GetOrCreateBucket(ghost repr: set<TokenBucket>, m: BucketMap, ghost v: Buckets, key: bytes, max: int,
                           limit: Limit, now: real, ghost kind: Kind)
    returns (r: BucketMap, ghost repr': set<TokenBucket>, ghost w: Buckets, ghost victim: bytes)
    requires Mirrors(repr, m, v) && Tagged(m, kind)
    ensures key in r && Tagged(r, kind) && repr <= repr' && fresh(repr' - repr) && Mirrors(repr', r, w)
    ensures w == GetOrCreate(v, key, max, limit, now, victim)
    ensures Evicts(v, key, max) ==> Stalest(v, victim)
  {
    victim, w, repr' := [], v, repr;
    if key in m {
      return m, repr', w, victim;
    }
    SameSize(m.Keys, m, v);
    var kept := m;
    ghost var values := v;
    if |m| >= max && m != map[] {
      var stalest := FindStalest(repr, m, v);
      victim := stalest;
      kept := m - {stalest};
      values := v - {stalest};
    }
    assert Mirrors(repr, kept, values);
    var b := new TokenBucket(limit, now, Tag(kind, key));
    r := kept[key := b];
    repr' := repr + {b};
    w := values[key := b.Value()];
  }

  /** cleanup on one map: drop every bucket idle for longer than stale. */
  method SweepMap(ghost repr: set<TokenBucket>, m: BucketMap, ghost v: Buckets, now: real, stale: real)
    returns (r: BucketMap)
    requires Mirrors(repr, m, v)
    ensures Mirrors(repr, r, Sweep(v, now, stale))
    ensures forall k :: k in r ==> k in m && r[k] == m[k]
  {
    r := m;
    var left := m.Keys;
    while left != {}
      invariant left <= m.Keys && r.Keys <= m.Keys
      invariant forall k :: k in r ==> r[k] == m[k]
      invariant forall k :: k in m ==> (k in r <==> k in left || !(now - m[k].lastTime > stale))
      decreases left
    {
      var k :| k in left;
      left := left - {k};
      if now - m[k].lastTime > stale {
        r := r - {k};
      }
    }
  }

  lemma CallerLeavesJobs(cfg: Config, s: State, now: real, address: bytes, victim: bytes)
    ensures CallerStep(cfg, s, now, address, victim).state.jobs == s.jobs
  {
  }

  class RateLimiter {
    const config: Config
    const globalBucket: TokenBucket
    var addressBuckets: BucketMap
    var jobSubmissionBuckets: BucketMap
    var endpointBuckets: BucketMap
    ghost var state: State               // the abstract state
    ghost var Repr: set<TokenBucket>     // the buckets in use

    /** Every bucket serves the limit it is filed under, so no two of them are one object, and
        together they hold the abstract state. */
    ghost predicate Valid()
      reads this, Repr
    {
      && globalBucket in Repr && globalBucket.tag.kind == Everyone && globalBucket.Value() == state.global
      && Tagged(addressBuckets, Addresses) && Tagged(jobSubmissionBuckets, Jobs) && Tagged(endpointBuckets, Endpoints)
      && Mirrors(Repr, addressBuckets, state.addresses)
      && Mirrors(Repr, jobSubmissionBuckets, state.jobs)
      && Mirrors(Repr, endpointBuckets, state.endpoints)
    }

    constructor (cfg: Config, now: real)
      ensures Valid() && fresh(Repr) && config == cfg && state == Init(cfg, now)
    {
      config := cfg;
      var g := new TokenBucket(cfg.global, now, Tag(Everyone, []));
      globalBucket := g;
      addressBuckets := map[];
      jobSubmissionBuckets := map[];
      endpointBuckets := map[];
      state := State(NewBucket(cfg.global.burst, cfg.global.rate, now), map[], map[], map[]);
      Repr := {g};
      new;
      AddEndpoints(now);
    }

    /** One full bucket per configured endpoint. */
    method AddEndpoints(now: real)
      requires Valid() && endpointBuckets == map[]
      modifies this
      ensures Valid() && fresh(Repr - old(Repr))
      ensures state == old(state).(endpoints := InitBuckets(config.endpoints, now))
    {
      var left := config.endpoints.Keys;
      while left != {}
        invariant left <= config.endpoints.Keys && Valid() && fresh(Repr - old(Repr))
        invariant state == old(state).(endpoints := state.endpoints)
        invariant state.endpoints.Keys == config.endpoints.Keys - left
        invariant forall e :: e in state.endpoints ==>
                    state.endpoints[e] == NewBucket(config.endpoints[e].burst, config.endpoints[e].rate, now)
        decreases left
      {
        var e :| e in left;
        left := left - {e};
        AddEndpoint(e, config.endpoints[e], now);
      }
      assert state.endpoints == InitBuckets(config.endpoints, now);
    }

    method AddEndpoint(e: bytes, limit: Limit, now: real)
      requires Valid() && e !in endpointBuckets
      modifies this
      ensures Valid() && fresh(Repr - old(Repr))
      ensures state == old(state).(endpoints := old(state).endpoints[e := NewBucket(limit.burst, limit.rate, now)])
    {
      var b := new TokenBucket(limit, now, Tag(Endpoints, e));
      var m := endpointBuckets[e := b];
      ghost var v := state.endpoints[e := b.Value()];
      Adopt(Repr + {b}, m, v);
      SetEndpoints(m, v);
    }

    method SetEndpoints(m: BucketMap, ghost v: Buckets)
      requires Valid() && Mirrors(Repr, m, v) && Tagged(m, Endpoints)
      modifies this`endpointBuckets, this`state
      ensures Valid() && endpointBuckets == m && state == old(state).(endpoints := v)
    {
      endpointBuckets := m;
      state := state.(endpoints := v);
    }

    method CheckGlobal(now: real) returns (ok: bool)
      requires Valid()
      modifies this, Repr
      ensures Valid() && Repr == old(Repr)
      ensures Outcome(state, ok) == TakeGlobal(old(state), now)
    {
      ok := globalBucket.Take(1.0, now);
      state := state.(global := globalBucket.Value());
    }

    /** getOrCreateAddressBucket. */
    method InstallAddress(address: bytes, now: real) returns (ghost victim: bytes)
      requires Valid()
      modifies this
      ensures Valid() && fresh(Repr - old(Repr)) && address in addressBuckets
      ensures state == old(state).(addresses :=
                GetOrCreate(old(state).addresses, address, config.maxTracked, config.address, now, victim))
      ensures Evicts(old(state).addresses, address, config.maxTracked) ==> Stalest(old(state).addresses, victim)
    {
      var m;
      ghost var more, v;
      m, more, v, victim :=
        GetOrCreateBucket(Repr, addressBuckets, state.addresses, address, config.maxTracked, config.address, now,
                          Addresses);
      Adopt(more, m, v);
      SetAddresses(m, v);
    }

    /** Count more buckets among those in use. */
    ghost method Adopt(more: set<TokenBucket>, m: BucketMap, v: Buckets)
      requires Valid() && Repr <= more && Mirrors(more, m, v)
      modifies this`Repr
      ensures Valid() && Repr == more && Mirrors(Repr, m, v)
    {
      MirrorsWiden(Repr, more, addressBuckets, state.addresses);
      MirrorsWiden(Repr, more, jobSubmissionBuckets, state.jobs);
      MirrorsWiden(Repr, more, endpointBuckets, state.endpoints);
      Repr := more;
    }

    method SetAddresses(m: BucketMap, ghost v: Buckets)
      requires Valid() && Mirrors(Repr, m, v) && Tagged(m, Addresses)
      modifies this`addressBuckets, this`state
      ensures Valid() && addressBuckets == m && state == old(state).(addresses := v)
    {
      addressBuckets := m;
      state := state.(addresses := v);
    }

    method CheckAddress(address: bytes, now: real) returns (ok: bool, ghost victim: bytes)
      requires Valid()
      modifies this, Repr
      ensures Valid() && fresh(Repr - old(Repr))
      ensures Outcome(state, ok) == TakeAddress(config, old(state), now, address, victim)
      ensures address != [] && Evicts(old(state).addresses, address, config.maxTracked)
          ==> Stalest(old(state).addresses, victim)
    {
      victim := [];
      if address == [] {
        return true, victim;
      }
      victim := InstallAddress(address, now);
      ok := TakeFromAddress(address, now);
    }

    method TakeFromAddress(address: bytes, now: real) returns (ok: bool)
      requires Valid() && address in addressBuckets
      modifies this, Repr
      ensures Valid() && Repr == old(Repr)
      ensures ok == Granted(old(state).addresses[address], now)
      ensures state == old(state).(addresses :=
                old(state).addresses[address := Take(old(state).addresses[address], now)])
    {
      ok := addressBuckets[address].Take(1.0, now);
      state := state.(addresses := state.addresses[address := addressBuckets[address].Value()]);
    }

    method CheckEndpoint(endpoint: bytes, now: real) returns (ok: bool)
      requires Valid()
      modifies this, Repr
      ensures Valid() && Repr == old(Repr)
      ensures Outcome(state, ok) == TakeEndpoint(old(state), now, endpoint)
    {
      if endpoint !in endpointBuckets {
        return true;
      }
      ok := endpointBuckets[endpoint].Take(1.0, now);
      state := state.(endpoints := state.endpoints[endpoint := endpointBuckets[endpoint].Value()]);
    }

    /** getOrCreateJobSubmissionBucket. */
    method InstallJob(key: bytes, now: real) returns (ghost victim: bytes)
      requires Valid()
      modifies this
      ensures Valid() && fresh(Repr - old(Repr)) && key in jobSubmissionBuckets
      ensures state == old(state).(jobs :=
                GetOrCreate(old(state).jobs, key, config.maxTracked, config.job, now, victim))
      ensures Evicts(old(state).jobs, key, config.maxTracked) ==> Stalest(old(state).jobs, victim)
    {
      var m;
      ghost var more, v;
      m, more, v, victim :=
        GetOrCreateBucket(Repr, jobSubmissionBuckets, state.jobs, key, config.maxTracked, config.job, now, Jobs);
      Adopt(more, m, v);
      SetJobs(m, v);
    }

    method SetJobs(m: BucketMap, ghost v: Buckets)
      requires Valid() && Mirrors(Repr, m, v) && Tagged(m, Jobs)
      modifies this`jobSubmissionBuckets, this`state
      ensures Valid() && jobSubmissionBuckets == m && state == old(state).(jobs := v)
    {
      jobSubmissionBuckets := m;
      state := state.(jobs := v);
    }

    method TakeFromJob(key: bytes, now: real) returns (ok: bool)
      requires Valid() && key in jobSubmissionBuckets
      modifies this, Repr
      ensures Valid() && Repr == old(Repr)
      ensures ok == Granted(old(state).jobs[key], now)
      ensures state == old(state).(jobs := old(state).jobs[key := Take(old(state).jobs[key], now)])
    {
      ok := jobSubmissionBuckets[key].Take(1.0, now);
      state := state.(jobs := state.jobs[key := jobSubmissionBuckets[key].Value()]);
    }

    method CheckJob(address: bytes, now: real) returns (ok: bool, ghost victim: bytes)
      requires Valid()
      modifies this, Repr
      ensures Valid() && fresh(Repr - old(Repr))
      ensures Outcome(state, ok) == TakeJob(config, old(state), now, address, victim)
      ensures Evicts(old(state).jobs, JobKey(address), config.maxTracked) ==> Stalest(old(state).jobs, victim)
    {
      var key := JobKey(address);
      victim := InstallJob(key, now);
      ok := TakeFromJob(key, now);
    }

    method CheckCaller(address: bytes, now: real) returns (ok: bool, ghost victim: bytes)
      requires Valid()
      modifies this, Repr
      ensures Valid() && fresh(Repr - old(Repr))
      ensures Outcome(state, ok) == CallerStep(config, old(state), now, address, victim)
      ensures EvictsAddress(config, old(state), now, address) ==> Stalest(old(state).addresses, victim)
    {
      victim := [];
      ok := CheckGlobal(now);
      if !ok {
        return;
      }
      ok, victim := CheckAddress(address, now);
    }

    method CheckSubmission(address: bytes, now: real) returns (ok: bool, ghost jobVictim: bytes)
      requires Valid()
      modifies this, Repr
      ensures Valid() && fresh(Repr - old(Repr))
      ensures Outcome(state, ok) == SubmissionStep(config, old(state), now, address, jobVictim)
      ensures Evicts(old(state).jobs, JobKey(address), config.maxTracked) && JobKey(address) in state.jobs
          ==> Stalest(old(state).jobs, jobVictim)
    {
      jobVictim := [];
      ok := CheckEndpoint(JOB_ENDPOINT, now);
      if !ok {
        return;
      }
      ok, jobVictim := CheckJob(address, now);
    }

    /** Allow, and the eviction it made. */
    method Allow(address: bytes, endpoint: bytes, now: real) returns (ok: bool, ghost victim: bytes)
      requires Valid()
      modifies this, Repr
      ensures Valid() && fresh(Repr - old(Repr))
      ensures Outcome(state, ok) == AllowStep(config, old(state), now, address, endpoint, victim)
      ensures EvictsAddress(config, old(state), now, address) ==> Stalest(old(state).addresses, victim)
    {
      ok, victim := CheckCaller(address, now);
      if !ok || endpoint == [] {
        return;
      }
      ok := CheckEndpoint(endpoint, now);
    }

    /** AllowJobSubmission, and the evictions it made. */
    method AllowJobSubmission(address: bytes, now: real) returns (ok: bool, ghost victim: bytes, ghost jobVictim: bytes)
      requires Valid()
      modifies this, Repr
      ensures Valid() && fresh(Repr - old(Repr))
      ensures Outcome(state, ok) == SubmitStep(config, old(state), now, address, victim, jobVictim)
      ensures EvictsAddress(config, old(state), now, address) ==> Stalest(old(state).addresses, victim)
      ensures Evicts(old(state).jobs, JobKey(address), config.maxTracked) && JobKey(address) in state.jobs
          ==> Stalest(old(state).jobs, jobVictim)
    {
      jobVictim := [];
      ghost var s := state;
      ok, victim := CheckCaller(address, now);
      CallerLeavesJobs(config, s, now, address, victim);
      if ok {
        ok, jobVictim := CheckSubmission(address, now);
      }
    }

    method CleanAddresses(now: real, stale: real)
      requires Valid()
      modifies this
      ensures Valid() && Repr == old(Repr)
      ensures state == SweepAddresses(old(state), now, stale)
    {
      addressBuckets := SweepMap(Repr, addressBuckets, state.addresses, now, stale);
      state := SweepAddresses(state, now, stale);
    }

    method CleanJobs(now: real, stale: real)
      requires Valid()
      modifies this
      ensures Valid() && Repr == old(Repr)
      ensures state == SweepJobs(old(state), now, stale)
    {
      jobSubmissionBuckets := SweepMap(Repr, jobSubmissionBuckets, state.jobs, now, stale);
      state := SweepJobs(state, now, stale);
    }

    method Cleanup(now: real)
      requires Valid()
      modifies this
      ensures Valid() && Repr == old(Repr)
      ensures state == CleanupStep(config, old(state), now)
      ensures Swept(config, old(state).addresses, now, state.addresses)
      ensures Swept(config, old(state).jobs, now, state.jobs)
      ensures state.global == old(state).global && state.endpoints == old(state).endpoints
    {
      var stale := StaleTime(config);
      CleanAddresses(now, stale);
      CleanJobs(now, stale);
    }
  }
}
