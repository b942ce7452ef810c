/**
 The refill condition under which cleanup cannot be observed is exact: where an idle bucket has not
 refilled by the time it is deleted, some run tells the two limiters apart.
 */
module CleanupExact {
  import opened Encoding
  import opened RateLimit
  import opened CleanupInvisible
  import opened RateWindow

  // ---------------------------------------------------------------- bursts

  /** The limits that are kept per key. */
  predicate Keyed(m: Meter) { (m.Address? && m.name != []) || m == Job([]) }

  /** A request that is subject to the limit and to no other keyed one. A submission without an
      address skips the address check. */
  function Ask(m: Meter, at: real): Event
  {
    if m.Address? then Allow(at, m.name, [], []) else Submit(at, [], [], [])
  }

  /** n such requests at one instant. */
  function Burst(at: real, m: Meter, n: nat): (r: seq<Event>)
    ensures |r| == n
  {
    if n == 0 then [] else [Ask(m, at)] + Burst(at, m, n - 1)
  }

  function CountTrue(answers: seq<bool>): nat
  {
    if answers == [] then 0 else (if answers[0] then 1 else 0) + CountTrue(answers[1..])
  }

  lemma {:induction false} AnswersConcat(cfg: Config, s: State, x: seq<Event>, y: seq<Event>)
    ensures Answers(cfg, s, x + y) == Answers(cfg, s, x) + Answers(cfg, After(cfg, s, x), y)
    ensures After(cfg, s, x + y) == After(cfg, After(cfg, s, x), y)
    decreases |x|
  {
    if x == [] {
      assert x + y == y;
    } else {
      assert (x + y)[1..] == x[1..] + y;
      AnswersConcat(cfg, Step(cfg, s, x[0]).state, x[1..], y);
    }
  }

  lemma {:induction false} BurstAnswers(cfg: Config, s: State, at: real, m: Meter, n: nat)
    requires Keyed(m)
    ensures CountTrue(Answers(cfg, s, Burst(at, m, n))) == GrantCount(cfg, s, Burst(at, m, n), m)
    ensures |Answers(cfg, s, Burst(at, m, n))| == n
    decreases n
  {
    if n > 0 {
      var e := Burst(at, m, n)[0];
      assert Burst(at, m, n)[1..] == Burst(at, m, n - 1);
      var o := Step(cfg, s, e);
      BurstAnswers(cfg, o.state, at, m, n - 1);
      assert Answers(cfg, s, Burst(at, m, n))[1..] == Answers(cfg, o.state, Burst(at, m, n - 1));
    }
  }

  lemma {:induction false} BurstOrdered(now: real, at: real, m: Meter, n: nat, rest: seq<Event>)
    requires now <= at && Ordered(at, rest)
    ensures Ordered(now, Burst(at, m, n) + rest)
    decreases n
  {
    if n == 0 {
      assert Burst(at, m, n) + rest == rest;
    } else {
      BurstOrdered(at, at, m, n - 1, rest);
      assert (Burst(at, m, n) + rest)[1..] == Burst(at, m, n - 1) + rest;
    }
  }

  /** The table has room, and holds at most the bucket of the one key in use. */
  predicate Alone(cfg: Config, s: State, m: Meter)
  {
    && Keyed(m) && cfg.maxTracked >= 1
    && (if m.Address? then s.addresses.Keys <= {m.name} else s.jobs.Keys <= {JobKey([])})
  }

  /** The bucket exists and was last used at this instant. */
  predicate UsedAt(s: State, m: Meter, at: real)
  {
    if m.Address? then m.name in s.addresses && s.addresses[m.name].last == at
    else JobKey([]) in s.jobs && s.jobs[JobKey([])].last == at
  }

  /** The shared limits that a request meets besides its own have n tokens left. */
  predicate Funds(cfg: Config, s: State, m: Meter, at: real, n: int)
    requires s.endpoints.Keys == cfg.endpoints.Keys
  {
    && Available(s.global, at) >= n as real
    && (m.Job? && JOB_ENDPOINT in s.endpoints ==> Available(s.endpoints[JOB_ENDPOINT], at) >= n as real)
  }

  lemma NoFlow(limit: Limit, now: real)
    ensures Available(NewBucket(limit.burst, limit.rate, now), now) == limit.burst as real
  {
    FlowAdds(limit.rate as real, 0.0, 0.0);
  }

  /** A check against a table that has room finds the level and takes one token from it. */
  lemma TouchOne(limit: Limit, t: Buckets, key: bytes, max: int, at: real)
    requires Natural(limit) && BucketsInv(limit, t, at) && t.Keys <= {key} && max >= 1
    requires LevelIn(t, key, limit, at) >= 1.0
    ensures var r := GetOrCreate(t, key, max, limit, at, []);
      var u := r[key := Take(r[key], at)];
      && Granted(r[key], at) && u.Keys <= {key} && u[key].last == at
      && LevelIn(u, key, limit, at) == LevelIn(t, key, limit, at) - 1.0
  {
    NoEviction(t, key, max, {key});
    var r := GetOrCreate(t, key, max, limit, at, []);
    NoFlow(limit, at);
    assert Available(r[key], at) == LevelIn(t, key, limit, at);
    LevelAfterTake(limit, r[key], at);
  }

  /** One request when all the limits it meets have a token. */
  lemma GrantOne(cfg: Config, s: State, at: real, m: Meter, n: int)
    requires Sane(cfg) && Inv(cfg, s, at) && Alone(cfg, s, m) && n >= 1
    requires Funds(cfg, s, m, at, n) && Level(cfg, s, m, at) >= 1.0
    ensures var o := Step(cfg, s, Ask(m, at));
      && o.ok && Inv(cfg, o.state, at) && Alone(cfg, o.state, m) && UsedAt(o.state, m, at)
      && Funds(cfg, o.state, m, at, n - 1)
      && Level(cfg, o.state, m, at) == Level(cfg, s, m, at) - 1.0
  {
    StepKeeps(cfg, s, at, Ask(m, at));
    LevelAfterTake(cfg.global, s.global, at);
    if m.Address? {
      TouchOne(cfg.address, s.addresses, m.name, cfg.maxTracked, at);
    } else {
      if JOB_ENDPOINT in s.endpoints {
        LevelAfterTake(cfg.endpoints[JOB_ENDPOINT], s.endpoints[JOB_ENDPOINT], at);
      }
      TouchOne(cfg.job, s.jobs, JobKey([]), cfg.maxTracked, at);
    }
  }

  /** n requests are all granted when the limits have n tokens, and use them up. */
  lemma {:induction false} GrantBurst(cfg: Config, s: State, at: real, m: Meter, n: nat, k: nat)
    requires Sane(cfg) && Inv(cfg, s, at) && Alone(cfg, s, m)
    requires Funds(cfg, s, m, at, n + k) && Level(cfg, s, m, at) >= n as real
    ensures GrantCount(cfg, s, Burst(at, m, n), m) == n
    ensures var r := After(cfg, s, Burst(at, m, n));
      && Inv(cfg, r, at) && Alone(cfg, r, m) && (n > 0 ==> UsedAt(r, m, at)) && Funds(cfg, r, m, at, k)
      && Level(cfg, r, m, at) == Level(cfg, s, m, at) - n as real
    decreases n
  {
    if n > 0 {
      GrantOne(cfg, s, at, m, n + k);
      assert Burst(at, m, n)[1..] == Burst(at, m, n - 1);
      GrantBurst(cfg, Step(cfg, s, Ask(m, at)).state, at, m, n - 1, k);
    }
  }

  lemma AskKeeps(cfg: Config, s: State, at: real, m: Meter)
    requires Alone(cfg, s, m)
    ensures LosesNothing(cfg, s, Ask(m, at), m) && Alone(cfg, Step(cfg, s, Ask(m, at)).state, m)
  {
    if m.Address? {
      NoEviction(s.addresses, m.name, cfg.maxTracked, {m.name});
    } else {
      NoEviction(s.jobs, JobKey([]), cfg.maxTracked, {JobKey([])});
    }
  }

  lemma {:induction false} BurstKept(cfg: Config, s: State, at: real, m: Meter, n: nat)
    requires Sane(cfg) && Inv(cfg, s, at) && Alone(cfg, s, m)
    ensures KeptThroughout(cfg, s, Burst(at, m, n), m)
    ensures EndTime(at, Burst(at, m, n)) == at
    decreases n
  {
    if n > 0 {
      assert Burst(at, m, n)[1..] == Burst(at, m, n - 1);
      StepKeeps(cfg, s, at, Ask(m, at));
      AskKeeps(cfg, s, at, m);
      BurstKept(cfg, Step(cfg, s, Ask(m, at)).state, at, m, n - 1);
    }
  }

  /** A burst cannot be granted beyond the tokens at hand. */
  lemma DeniedBurst(cfg: Config, s: State, at: real, m: Meter, n: nat)
    requires Sane(cfg) && Inv(cfg, s, at) && Alone(cfg, s, m)
    ensures GrantCount(cfg, s, Burst(at, m, n), m) as real <= Level(cfg, s, m, at)
  {
    BurstKept(cfg, s, at, m, n);
    BurstOrdered(at, at, m, n, []);
    assert Burst(at, m, n) + [] == Burst(at, m, n);
    GrantsPaidFor(cfg, s, at, Burst(at, m, n), m);
    FlowAdds(LimitOf(cfg, m).rate as real, 0.0, 0.0);
  }

  // ---------------------------------------------------------------- the probe

  /** A moment after the stale time at which a drained bucket is not full yet. */
  lemma TooSoon(rate: real, stale: real, burst: real) returns (c: real)
    requires rate >= 0.0 && stale > 0.0 && Flow(rate, stale) < burst
    ensures c > stale && Flow(rate, c) < burst
  {
    if rate == 0.0 {
      c := stale + 1.0;
    } else {
      var d := (burst - Flow(rate, stale)) / (2.0 * rate);
      c := stale + d;
      FlowAdds(rate, stale, d);
      assert d * rate == (burst - Flow(rate, stale)) / 2.0;
    }
  }

  /** Drain the bucket, let it idle, clean up or not, and ask for a full burst. */
  function Probe(m: Meter, n: nat, c: real): seq<Event>
  {
    Burst(0.0, m, n) + ([Cleanup(c)] + Burst(c, m, n))
  }

  lemma {:induction false} FilterConcat(x: seq<Event>, y: seq<Event>)
    ensures WithoutCleanup(x + y) == WithoutCleanup(x) + WithoutCleanup(y)
    decreases |x|
  {
    if x == [] {
      assert x + y == y;
    } else {
      assert (x + y)[1..] == x[1..] + y;
      FilterConcat(x[1..], y);
    }
  }

  lemma {:induction false} FilterBurst(at: real, m: Meter, n: nat)
    ensures WithoutCleanup(Burst(at, m, n)) == Burst(at, m, n)
  {
    if n > 0 {
      assert Burst(at, m, n)[1..] == Burst(at, m, n - 1);
      FilterBurst(at, m, n - 1);
    }
  }

  lemma CleanupHead(cfg: Config, r: State, c: real, y: seq<Event>)
    ensures Answers(cfg, r, [Cleanup(c)] + y) == Answers(cfg, CleanupStep(cfg, r, c), y)
    ensures WithoutCleanup([Cleanup(c)] + y) == WithoutCleanup(y)
  {
    var rest := [Cleanup(c)] + y;
    assert rest[0] == Cleanup(c) && rest[1..] == y;
  }

  /** A run with one cleanup in the middle, with and without it. */
  lemma SplitAtCleanup(cfg: Config, s: State, x: seq<Event>, c: real, y: seq<Event>)
    requires WithoutCleanup(x) == x && WithoutCleanup(y) == y
    ensures var events, r := x + ([Cleanup(c)] + y), After(cfg, s, x);
      && Answers(cfg, s, events) == Answers(cfg, s, x) + Answers(cfg, CleanupStep(cfg, r, c), y)
      && Answers(cfg, s, WithoutCleanup(events)) == Answers(cfg, s, x) + Answers(cfg, r, y)
  {
    var rest := [Cleanup(c)] + y;
    CleanupHead(cfg, After(cfg, s, x), c, y);
    AnswersConcat(cfg, s, x, rest);
    FilterConcat(x, rest);
    AnswersConcat(cfg, s, x, y);
  }

  lemma DifferentTails(a: seq<bool>, x: seq<bool>, y: seq<bool>)
    requires CountTrue(x) != CountTrue(y)
    ensures a + x != a + y
  {
    assert (a + x)[|a|..] == x && (a + y)[|a|..] == y;
  }

  /** At time 0 the bucket is used up and the shared limits could pay for another burst. */
  predicate Drains(cfg: Config, r: State, m: Meter, n: nat)
  {
    && Inv(cfg, r, 0.0) && Alone(cfg, r, m) && UsedAt(r, m, 0.0) && Funds(cfg, r, m, 0.0, n)
    && Level(cfg, r, m, 0.0) == 0.0
  }

  /** The shared limits allow two bursts of the keyed limit at once. */
  predicate Roomy(cfg: Config, m: Meter)
    requires Exists(cfg, m)
  {
    && cfg.global.burst >= 2 * LimitOf(cfg, m).burst
    && (m.Job? && JOB_ENDPOINT in cfg.endpoints ==> cfg.endpoints[JOB_ENDPOINT].burst >= 2 * LimitOf(cfg, m).burst)
  }

  lemma Drained(cfg: Config, m: Meter)
    requires Sane(cfg) && Keyed(m) && cfg.maxTracked >= 1 && Roomy(cfg, m) && LimitOf(cfg, m).burst > 0
    ensures Drains(cfg, After(cfg, Init(cfg, 0.0), Burst(0.0, m, LimitOf(cfg, m).burst)), m, LimitOf(cfg, m).burst)
  {
    var init, n := Init(cfg, 0.0), LimitOf(cfg, m).burst;
    InitInv(cfg, 0.0);
    NoFlow(cfg.global, 0.0);
    if JOB_ENDPOINT in cfg.endpoints {
      NoFlow(cfg.endpoints[JOB_ENDPOINT], 0.0);
    }
    GrantBurst(cfg, init, 0.0, m, n, n);
  }

  lemma AvailableNotLower(limit: Limit, b: Bucket, now: real, at: real)
    requires Natural(limit) && BucketInv(limit, b, now) && now <= at
    ensures Available(b, at) >= Available(b, now)
  {
    FlowNonNegative(b.rate, at - now);
    FlowAdds(b.rate, now - b.last, at - now);
  }

  lemma FundsLater(cfg: Config, s: State, m: Meter, now: real, at: real, n: int)
    requires Sane(cfg) && Inv(cfg, s, now) && now <= at && Funds(cfg, s, m, now, n)
    ensures Funds(cfg, s, m, at, n)
  {
    AvailableNotLower(cfg.global, s.global, now, at);
    if JOB_ENDPOINT in s.endpoints {
      AvailableNotLower(cfg.endpoints[JOB_ENDPOINT], s.endpoints[JOB_ENDPOINT], now, at);
    }
  }

  /** After the stale time the idle bucket is gone, and the next request would get a full one. */
  lemma CleanedFull(cfg: Config, r: State, m: Meter, c: real)
    requires Inv(cfg, r, 0.0) && Alone(cfg, r, m) && UsedAt(r, m, 0.0) && c > StaleTime(cfg) && c >= 0.0
    ensures var cleaned := CleanupStep(cfg, r, c);
      && Inv(cfg, cleaned, c) && Alone(cfg, cleaned, m) && Level(cfg, cleaned, m, c) == LimitOf(cfg, m).burst as real
      && cleaned.global == r.global && cleaned.endpoints == r.endpoints
  {
  }

  /** The bucket that was not cleaned up cannot pay for the second burst. */
  lemma IdleDenied(cfg: Config, m: Meter, c: real, r: State, n: nat)
    requires Sane(cfg) && Keyed(m) && Drains(cfg, r, m, n) && c >= 0.0
    requires Flow(LimitOf(cfg, m).rate as real, c) < n as real
    ensures GrantCount(cfg, r, Burst(c, m, n), m) < n
  {
    InvLater(cfg, r, 0.0, c);
    LevelGrows(cfg, r, m, 0.0, c);
    DeniedBurst(cfg, r, c, m, n);
  }

  /** The new one can. */
  lemma CleanedGranted(cfg: Config, m: Meter, c: real, r: State)
    requires Sane(cfg) && Keyed(m) && Drains(cfg, r, m, LimitOf(cfg, m).burst) && c > StaleTime(cfg) && c >= 0.0
    ensures var n := LimitOf(cfg, m).burst; GrantCount(cfg, CleanupStep(cfg, r, c), Burst(c, m, n), m) == n
  {
    CleanedFull(cfg, r, m, c);
    FundsLater(cfg, r, m, 0.0, c, LimitOf(cfg, m).burst);
    GrantBurst(cfg, CleanupStep(cfg, r, c), c, m, LimitOf(cfg, m).burst, 0);
  }

  lemma ProbeFrom(cfg: Config, s: State, m: Meter, c: real)
    requires Sane(cfg) && Keyed(m) && LimitOf(cfg, m).burst > 0
    requires c > StaleTime(cfg) && Flow(LimitOf(cfg, m).rate as real, c) < LimitOf(cfg, m).burst as real
    requires Drains(cfg, After(cfg, s, Burst(0.0, m, LimitOf(cfg, m).burst)), m, LimitOf(cfg, m).burst)
    ensures var events := Probe(m, LimitOf(cfg, m).burst, c);
      Answers(cfg, s, events) != Answers(cfg, s, WithoutCleanup(events))
  {
    var n := LimitOf(cfg, m).burst;
    var first, last := Burst(0.0, m, n), Burst(c, m, n);
    var drained := After(cfg, s, first);
    IdleDenied(cfg, m, c, drained, n);
    CleanedGranted(cfg, m, c, drained);
    FilterBurst(0.0, m, n);
    FilterBurst(c, m, n);
    SplitAtCleanup(cfg, s, first, c, last);
    BurstAnswers(cfg, CleanupStep(cfg, drained, c), c, m, n);
    BurstAnswers(cfg, drained, c, m, n);
    DifferentTails(Answers(cfg, s, first),
                   Answers(cfg, CleanupStep(cfg, drained, c), last), Answers(cfg, drained, last));
  }

  /** Where the stale time is too short to refill, the probe is answered differently. */
  lemma ProbeDiffers(cfg: Config, m: Meter, c: real)
    requires Sane(cfg) && Keyed(m) && cfg.maxTracked >= 1 && Roomy(cfg, m) && LimitOf(cfg, m).burst > 0
    requires c > StaleTime(cfg) && Flow(LimitOf(cfg, m).rate as real, c) < LimitOf(cfg, m).burst as real
    ensures var events := Probe(m, LimitOf(cfg, m).burst, c);
      Answers(cfg, Init(cfg, 0.0), events) != Answers(cfg, Init(cfg, 0.0), WithoutCleanup(events))
  {
    Drained(cfg, m);
    ProbeFrom(cfg, Init(cfg, 0.0), m, c);
  }

  // ---------------------------------------------------------------- the exact condition

  /** The requests of every run that fits the tables are answered as if there were no cleanup. */
  ghost predicate NeverObserved(cfg: Config)
  {
    forall start, events, addresses, jobs ::
      Ordered(start, events) && AllUse(events, addresses, jobs)
      && |addresses| <= cfg.maxTracked && |jobs| <= cfg.maxTracked
      ==> Answers(cfg, Init(cfg, start), events) == Answers(cfg, Init(cfg, start), WithoutCleanup(events))
  }

  predicate AllRecover(cfg: Config)
  {
    Recovers(cfg.address, 2.0 * cfg.interval) && Recovers(cfg.job, 2.0 * cfg.interval)
  }

  lemma RecoveringNeverObserved(cfg: Config)
    requires Sane(cfg) && AllRecover(cfg)
    ensures NeverObserved(cfg)
  {
    forall start, events, addresses, jobs | Ordered(start, events) && AllUse(events, addresses, jobs)
        && |addresses| <= cfg.maxTracked && |jobs| <= cfg.maxTracked
      ensures Answers(cfg, Init(cfg, start), events) == Answers(cfg, Init(cfg, start), WithoutCleanup(events))
    {
      CleanupIsInvisible(cfg, start, events, addresses, jobs);
    }
  }

  function AddressKeys(m: Meter): set<bytes> { if m.Address? then {m.name} else {} }

  function JobKeys(m: Meter): set<bytes> { if m.Address? then {} else {JobKey([])} }

  lemma {:induction false} BurstUses(at: real, m: Meter, n: nat)
    requires Keyed(m)
    ensures AllUse(Burst(at, m, n), AddressKeys(m), JobKeys(m))
  {
    if n > 0 {
      BurstUses(at, m, n - 1);
      assert Burst(at, m, n)[1..] == Burst(at, m, n - 1);
    }
  }

  lemma ProbeFits(m: Meter, n: nat, c: real)
    requires Keyed(m) && c >= 0.0
    ensures Ordered(0.0, Probe(m, n, c)) && AllUse(Probe(m, n, c), AddressKeys(m), JobKeys(m))
  {
    var last := Burst(c, m, n);
    BurstOrdered(c, c, m, n, []);
    assert last + [] == last;
    var rest := [Cleanup(c)] + last;
    assert rest[1..] == last;
    BurstOrdered(0.0, 0.0, m, n, rest);
    BurstUses(0.0, m, n);
    BurstUses(c, m, n);
  }

  lemma ObservedUnlessRecovers(cfg: Config, m: Meter)
    requires Sane(cfg) && Keyed(m) && cfg.maxTracked >= 1 && Roomy(cfg, m)
    requires !Recovers(LimitOf(cfg, m), StaleTime(cfg))
    ensures !NeverObserved(cfg)
  {
    var limit := LimitOf(cfg, m);
    FlowNonNegative(limit.rate as real, StaleTime(cfg));
    var c := TooSoon(limit.rate as real, StaleTime(cfg), limit.burst as real);
    var events := Probe(m, limit.burst, c);
    ProbeDiffers(cfg, m, c);
    ProbeFits(m, limit.burst, c);
    assert |AddressKeys(m)| <= 1 && |JobKeys(m)| <= 1;
    assert Ordered(0.0, events) && AllUse(events, AddressKeys(m), JobKeys(m));
  }

  /** Where the shared limits leave room for two bursts, cleanup is unobservable exactly when a
      drained address bucket and a drained job bucket both refill within the stale time. */
  lemma {:induction false} UnobservableIffRecovers(cfg: Config)
    requires Sane(cfg) && cfg.maxTracked >= 1 && Roomy(cfg, Address([1])) && Roomy(cfg, Job([]))
    ensures NeverObserved(cfg) <==> AllRecover(cfg)
  {
    if AllRecover(cfg) {
      RecoveringNeverObserved(cfg);
    } else if !Recovers(cfg.address, StaleTime(cfg)) {
      ObservedUnlessRecovers(cfg, Address([1]));
    } else {
      ObservedUnlessRecovers(cfg, Job([]));
    }
  }

  /** The keyed limits, the interval and the table size. */
  predicate SameTables(cfg: Config, other: Config)
  {
    && cfg.address == other.address && cfg.job == other.job
    && cfg.interval == other.interval && cfg.maxTracked == other.maxTracked
  }

  /** For every configuration: cleanup is unobservable whatever the global and endpoint limits beside
      it exactly when both kinds of bucket refill within the stale time. */
  lemma {:induction false} UnobservableWhateverShared(cfg: Config)
    requires Sane(cfg) && cfg.maxTracked >= 1
    ensures (forall other :: Sane(other) && SameTables(cfg, other) ==> NeverObserved(other)) <==> AllRecover(cfg)
  {
    if AllRecover(cfg) {
      forall other | Sane(other) && SameTables(cfg, other)
        ensures NeverObserved(other)
      {
        RecoveringNeverObserved(other);
      }
    } else {
      var roomy := cfg.(global := Limit(2 * cfg.address.burst + 2 * cfg.job.burst, 0), endpoints := map[]);
      UnobservableIffRecovers(roomy);
      assert Sane(roomy) && SameTables(cfg, roomy) && !NeverObserved(roomy);
    }
  }
}
