/**
 How many requests a limit can let through: in every window of a run, at most the burst plus the
 rate times the length of the window.
 */
module RateWindow {
  import opened Encoding
  import opened RateLimit
  import opened CleanupInvisible

  // ---------------------------------------------------------------- the invariant of every run

  lemma CreateKeeps(limit: Limit, m: Buckets, key: bytes, max: int, at: real, victim: bytes)
    requires Natural(limit) && BucketsInv(limit, m, at)
    ensures var r := GetOrCreate(m, key, max, limit, at, victim);
      BucketsInv(limit, r, at) && BucketsInv(limit, r[key := Take(r[key], at)], at)
  {
    var r := GetOrCreate(m, key, max, limit, at, victim);
    TakeKeeps(limit, r[key], at, at);
  }

  lemma AddressKeeps(cfg: Config, s: State, at: real, address: bytes, victim: bytes)
    requires Sane(cfg) && Inv(cfg, s, at)
    ensures Inv(cfg, TakeAddress(cfg, s, at, address, victim).state, at)
  {
    if address != [] {
      CreateKeeps(cfg.address, s.addresses, address, cfg.maxTracked, at, victim);
    }
  }

  lemma EndpointKeeps(cfg: Config, s: State, at: real, endpoint: bytes)
    requires Sane(cfg) && Inv(cfg, s, at)
    ensures Inv(cfg, TakeEndpoint(s, at, endpoint).state, at)
  {
    if endpoint in s.endpoints {
      TakeKeeps(cfg.endpoints[endpoint], s.endpoints[endpoint], at, at);
    }
  }

  lemma JobKeeps(cfg: Config, s: State, at: real, address: bytes, victim: bytes)
    requires Sane(cfg) && Inv(cfg, s, at)
    ensures Inv(cfg, TakeJob(cfg, s, at, address, victim).state, at)
  {
    CreateKeeps(cfg.job, s.jobs, JobKey(address), cfg.maxTracked, at, victim);
  }

  lemma StepKeeps(cfg: Config, s: State, now: real, e: Event)
    requires Sane(cfg) && Inv(cfg, s, now) && now <= e.at
    ensures Inv(cfg, Step(cfg, s, e).state, e.at)
  {
    if !e.Cleanup? {
      TakeKeeps(cfg.global, s.global, now, e.at);
      var g := TakeGlobal(s, e.at);
      assert Inv(cfg, g.state, e.at);
      AddressKeeps(cfg, g.state, e.at, e.address, e.victim);
      var a := TakeAddress(cfg, g.state, e.at, e.address, e.victim);
      match e {
        case Allow(at, _, endpoint, _) =>
          EndpointKeeps(cfg, a.state, at, endpoint);
        case Submit(at, address, _, jobVictim) =>
          EndpointKeeps(cfg, a.state, at, JOB_ENDPOINT);
          JobKeeps(cfg, TakeEndpoint(a.state, at, JOB_ENDPOINT).state, at, address, jobVictim);
      }
    }
  }

  lemma {:induction false} RunKeeps(cfg: Config, s: State, now: real, events: seq<Event>)
    requires Sane(cfg) && Inv(cfg, s, now) && Ordered(now, events)
    ensures Inv(cfg, After(cfg, s, events), EndTime(now, events))
    decreases |events|
  {
    if events != [] {
      StepKeeps(cfg, s, now, events[0]);
      RunKeeps(cfg, Step(cfg, s, events[0]).state, events[0].at, events[1..]);
    }
  }

  // ---------------------------------------------------------------- meters

  /** A limit that requests can be counted against; Job is the limit on an address's submissions. */
  datatype Meter = Global | Endpoint(name: bytes) | Address(name: bytes) | Job(name: bytes)

  predicate Exists(cfg: Config, m: Meter)
  {
    (m.Endpoint? ==> m.name != [] && m.name in cfg.endpoints) && (m.Address? ==> m.name != [])
  }

  /** The limit has one bucket for all, which is never evicted or cleaned up. */
  predicate Shared(m: Meter) { m.Global? || m.Endpoint? }

  function LimitOf(cfg: Config, m: Meter): Limit
    requires Exists(cfg, m)
  {
    match m
    case Global => cfg.global
    case Endpoint(name) => cfg.endpoints[name]
    case Address(_) => cfg.address
    case Job(_) => cfg.job
  }

  /** What a limit may let through in a window of length d. */
  function Allowance(cfg: Config, m: Meter, d: real): real
    requires Exists(cfg, m)
  {
    LimitOf(cfg, m).burst as real + Flow(LimitOf(cfg, m).rate as real, d)
  }

  /** The request is subject to the limit. */
  predicate Counts(m: Meter, e: Event)
  {
    !e.Cleanup? &&
    match m
    case Global => true
    case Endpoint(name) => (e.Allow? && e.endpoint == name) || (e.Submit? && name == JOB_ENDPOINT)
    case Address(name) => e.address == name
    case Job(name) => e.Submit? && e.address == name
  }

  /** The requests subject to the limit that a run grants. */
  function GrantCount(cfg: Config, s: State, events: seq<Event>, m: Meter): nat
    decreases |events|
  {
    if events == [] then 0
    else
      var o := Step(cfg, s, events[0]);
      (if o.ok && Counts(m, events[0]) then 1 else 0) + GrantCount(cfg, o.state, events[1..], m)
  }

  function LevelIn(m: Buckets, key: bytes, limit: Limit, at: real): real
  {
    if key in m then Available(m[key], at) else limit.burst as real
  }

  /** The tokens a limit has left at an instant; where there is no bucket, a full one would be made. */
  function Level(cfg: Config, s: State, m: Meter, at: real): real
    requires Exists(cfg, m) && s.endpoints.Keys == cfg.endpoints.Keys
  {
    match m
    case Global => Available(s.global, at)
    case Endpoint(name) => Available(s.endpoints[name], at)
    case Address(name) => LevelIn(s.addresses, name, cfg.address, at)
    case Job(name) => LevelIn(s.jobs, JobKey(name), cfg.job, at)
  }

  /** The step neither evicts the limit's bucket nor cleans it up. */
  predicate KeepsBucket(cfg: Config, s: State, e: Event, m: Meter)
  {
    && (m.Address? && m.name in s.addresses ==> m.name in Step(cfg, s, e).state.addresses)
    && (m.Job? && JobKey(m.name) in s.jobs ==> JobKey(m.name) in Step(cfg, s, e).state.jobs)
  }

  /** The bucket is kept, or was full again when it was cleaned up. */
  predicate LosesNothing(cfg: Config, s: State, e: Event, m: Meter)
    requires Exists(cfg, m)
  {
    KeepsBucket(cfg, s, e, m) || (e.Cleanup? && Recovers(LimitOf(cfg, m), StaleTime(cfg)))
  }

  predicate KeptThroughout(cfg: Config, s: State, events: seq<Event>, m: Meter)
    requires Exists(cfg, m)
    decreases |events|
  {
    events == [] ||
    (LosesNothing(cfg, s, events[0], m) && KeptThroughout(cfg, Step(cfg, s, events[0]).state, events[1..], m))
  }

  lemma LevelAfterTake(limit: Limit, b: Bucket, at: real)
    requires Natural(limit) && BucketInv(limit, b, at)
    ensures Available(Take(b, at), at) == Available(b, at) - if Granted(b, at) then 1.0 else 0.0
  {
    AvailableBounds(limit, b, at, at);
    FlowAdds(b.rate, 0.0, 0.0);
  }

  lemma InvLater(cfg: Config, s: State, now: real, at: real)
    requires Inv(cfg, s, now) && now <= at
    ensures Inv(cfg, s, at)
  {
  }

  /** A check against a table takes a token from the bucket it is about, and from no other. */
  lemma TouchLevel(limit: Limit, m: Buckets, key: bytes, max: int, at: real, victim: bytes, name: bytes)
    requires Natural(limit) && BucketsInv(limit, m, at)
    requires name in m ==> name in GetOrCreate(m, key, max, limit, at, victim)
    ensures var r := GetOrCreate(m, key, max, limit, at, victim);
      LevelIn(r[key := Take(r[key], at)], name, limit, at) + (if key == name && Granted(r[key], at) then 1.0 else 0.0)
      <= LevelIn(m, name, limit, at)
  {
    if key == name {
      var r := GetOrCreate(m, key, max, limit, at, victim);
      LevelAfterTake(limit, r[key], at);
      if name !in m {
        assert Available(r[key], at) <= limit.burst as real;
      }
    }
  }

  lemma AddressLevel(cfg: Config, s: State, at: real, address: bytes, victim: bytes, name: bytes)
    requires Sane(cfg) && Inv(cfg, s, at) && name != []
    requires name in s.addresses ==> name in TakeAddress(cfg, s, at, address, victim).state.addresses
    ensures var o := TakeAddress(cfg, s, at, address, victim);
      && o.state.endpoints == s.endpoints
      && Level(cfg, o.state, Address(name), at) + (if o.ok && address == name then 1.0 else 0.0)
         <= Level(cfg, s, Address(name), at)
  {
    if address != [] {
      TouchLevel(cfg.address, s.addresses, address, cfg.maxTracked, at, victim, name);
    }
  }

  lemma JobLevel(cfg: Config, s: State, at: real, address: bytes, victim: bytes, name: bytes)
    requires Sane(cfg) && Inv(cfg, s, at)
    requires JobKey(name) in s.jobs ==> JobKey(name) in TakeJob(cfg, s, at, address, victim).state.jobs
    ensures var o := TakeJob(cfg, s, at, address, victim);
      && o.state.endpoints == s.endpoints
      && Level(cfg, o.state, Job(name), at) + (if o.ok && address == name then 1.0 else 0.0)
         <= Level(cfg, s, Job(name), at)
  {
    TouchLevel(cfg.job, s.jobs, JobKey(address), cfg.maxTracked, at, victim, JobKey(name));
  }

  lemma EndpointLevel(cfg: Config, s: State, at: real, endpoint: bytes, name: bytes)
    requires Sane(cfg) && Inv(cfg, s, at) && name in cfg.endpoints && name != []
    ensures var o := TakeEndpoint(s, at, endpoint);
      && o.state.addresses == s.addresses && o.state.jobs == s.jobs && o.state.global == s.global
      && o.state.endpoints.Keys == s.endpoints.Keys
      && Level(cfg, o.state, Endpoint(name), at) + (if o.ok && endpoint == name then 1.0 else 0.0)
         <= Level(cfg, s, Endpoint(name), at)
  {
    if endpoint == name {
      LevelAfterTake(cfg.endpoints[name], s.endpoints[name], at);
    }
  }

  /** A sweep that takes a bucket which has had time to refill leaves the level as it was. */
  lemma SweepLevel(limit: Limit, m: Buckets, key: bytes, at: real, stale: real)
    requires Natural(limit) && BucketsInv(limit, m, at)
    requires key in m && key !in Sweep(m, at, stale) ==> Recovers(limit, stale)
    ensures LevelIn(Sweep(m, at, stale), key, limit, at) <= LevelIn(m, key, limit, at)
  {
    if key in m && key !in Sweep(m, at, stale) {
      IdleRefreshed(limit, m[key], at, stale);
    }
  }

  lemma CleanupLevel(cfg: Config, s: State, e: Event, m: Meter)
    requires Sane(cfg) && Inv(cfg, s, e.at) && Exists(cfg, m) && e.Cleanup? && LosesNothing(cfg, s, e, m)
    ensures var o := Step(cfg, s, e).state;
      o.endpoints.Keys == s.endpoints.Keys && Level(cfg, o, m, e.at) <= Level(cfg, s, m, e.at)
  {
    match m {
      case Global =>
      case Endpoint(_) =>
      case Address(name) => SweepLevel(cfg.address, s.addresses, name, e.at, StaleTime(cfg));
      case Job(name) => SweepLevel(cfg.job, s.jobs, JobKey(name), e.at, StaleTime(cfg));
    }
  }

  function EndpointOf(e: Event): bytes
    requires !e.Cleanup?
  {
    if e.Allow? then e.endpoint else JOB_ENDPOINT
  }

  /** A submission comes as far as the job check. */
  predicate Reached(cfg: Config, s: State, e: Event)
  {
    e.Submit? && TakeGlobal(s, e.at).ok &&
    var a := TakeAddress(cfg, TakeGlobal(s, e.at).state, e.at, e.address, e.victim);
    a.ok && TakeEndpoint(a.state, e.at, JOB_ENDPOINT).ok
  }

  function BeforeJob(cfg: Config, s: State, e: Event): State
    requires e.Submit?
  {
    TakeEndpoint(TakeAddress(cfg, TakeGlobal(s, e.at).state, e.at, e.address, e.victim).state, e.at, JOB_ENDPOINT).state
  }

  /** The job check is the last stage, and alone in changing the job buckets. */
  lemma JobStage(cfg: Config, s: State, e: Event)
    requires !e.Cleanup?
    ensures var o := Step(cfg, s, e);
      if Reached(cfg, s, e) then
        o == TakeJob(cfg, BeforeJob(cfg, s, e), e.at, e.address, e.jobVictim) && BeforeJob(cfg, s, e).jobs == s.jobs
      else o.state.jobs == s.jobs && (e.Submit? ==> !o.ok)
  {
  }

  /** Which stage of a request last changes which part of the state. */
  lemma StepStages(cfg: Config, s: State, e: Event)
    requires !e.Cleanup?
    ensures var g := TakeGlobal(s, e.at);
      var a := TakeAddress(cfg, g.state, e.at, e.address, e.victim);
      var p := TakeEndpoint(a.state, e.at, EndpointOf(e));
      var o := Step(cfg, s, e);
      && o.state.global == g.state.global && (o.ok ==> g.ok)
      && (if !g.ok then o == g else o.state.addresses == a.state.addresses && (o.ok ==> a.ok))
      && a.state.endpoints == s.endpoints
      && (o.state.endpoints == s.endpoints || o.state.endpoints == p.state.endpoints)
      && (g.ok && a.ok && EndpointOf(e) != [] ==> o.state.endpoints == p.state.endpoints && (o.ok ==> p.ok))
      && (!(g.ok && a.ok && EndpointOf(e) != []) ==>
            o.state.endpoints == s.endpoints && (o.ok ==> e.Allow? && e.endpoint == []))
  {
  }

  lemma RequestLevel(cfg: Config, s: State, e: Event, m: Meter)
    requires Sane(cfg) && Inv(cfg, s, e.at) && Exists(cfg, m) && KeepsBucket(cfg, s, e, m) && !e.Cleanup?
    ensures var o := Step(cfg, s, e);
      && o.state.endpoints.Keys == s.endpoints.Keys
      && Level(cfg, o.state, m, e.at) + (if o.ok && Counts(m, e) then 1.0 else 0.0) <= Level(cfg, s, m, e.at)
  {
    var g := TakeGlobal(s, e.at);
    LevelAfterTake(cfg.global, s.global, e.at);
    TakeKeeps(cfg.global, s.global, e.at, e.at);
    StepStages(cfg, s, e);
    JobStage(cfg, s, e);
    if g.ok {
      assert Inv(cfg, g.state, e.at);
      var a := TakeAddress(cfg, g.state, e.at, e.address, e.victim);
      match m {
        case Global =>
        case Address(name) => AddressLevel(cfg, g.state, e.at, e.address, e.victim, name);
        case Endpoint(name) =>
          AddressKeeps(cfg, g.state, e.at, e.address, e.victim);
          EndpointLevel(cfg, a.state, e.at, EndpointOf(e), name);
        case Job(name) =>
          if Reached(cfg, s, e) {
            AddressKeeps(cfg, g.state, e.at, e.address, e.victim);
            EndpointKeeps(cfg, a.state, e.at, JOB_ENDPOINT);
            JobLevel(cfg, BeforeJob(cfg, s, e), e.at, e.address, e.jobVictim, name);
          }
      }
    }
  }

  /** One event lowers the level of a limit by at least the grants it counts. */
  lemma StepLevel(cfg: Config, s: State, e: Event, m: Meter)
    requires Sane(cfg) && Inv(cfg, s, e.at) && Exists(cfg, m) && LosesNothing(cfg, s, e, m)
    ensures var o := Step(cfg, s, e);
      && o.state.endpoints.Keys == s.endpoints.Keys
      && Level(cfg, o.state, m, e.at) + (if o.ok && Counts(m, e) then 1.0 else 0.0) <= Level(cfg, s, m, e.at)
  {
    if e.Cleanup? {
      CleanupLevel(cfg, s, e, m);
    } else {
      RequestLevel(cfg, s, e, m);
    }
  }

  lemma AvailableGrows(limit: Limit, b: Bucket, now: real, at: real)
    requires Natural(limit) && BucketInv(limit, b, now) && now <= at
    ensures Available(b, at) <= Available(b, now) + Flow(limit.rate as real, at - now)
  {
    FlowNonNegative(b.rate, at - now);
    FlowAdds(b.rate, now - b.last, at - now);
  }

  lemma LevelInGrows(limit: Limit, m: Buckets, key: bytes, now: real, at: real)
    requires Natural(limit) && BucketsInv(limit, m, now) && now <= at
    ensures LevelIn(m, key, limit, at) <= LevelIn(m, key, limit, now) + Flow(limit.rate as real, at - now)
  {
    if key in m {
      AvailableGrows(limit, m[key], now, at);
    } else {
      FlowNonNegative(limit.rate as real, at - now);
    }
  }

  /** Between events a level grows at most at the limit's rate. */
  lemma LevelGrows(cfg: Config, s: State, m: Meter, now: real, at: real)
    requires Sane(cfg) && Inv(cfg, s, now) && Exists(cfg, m) && now <= at
    ensures Level(cfg, s, m, at) <= Level(cfg, s, m, now) + Flow(LimitOf(cfg, m).rate as real, at - now)
  {
    match m {
      case Global => AvailableGrows(cfg.global, s.global, now, at);
      case Endpoint(name) => AvailableGrows(cfg.endpoints[name], s.endpoints[name], now, at);
      case Address(name) => LevelInGrows(cfg.address, s.addresses, name, now, at);
      case Job(name) => LevelInGrows(cfg.job, s.jobs, JobKey(name), now, at);
    }
  }

  lemma LevelBounds(cfg: Config, s: State, m: Meter, now: real)
    requires Sane(cfg) && Inv(cfg, s, now) && Exists(cfg, m)
    ensures 0.0 <= Level(cfg, s, m, now) <= LimitOf(cfg, m).burst as real
  {
    match m {
      case Global => AvailableBounds(cfg.global, s.global, now, now);
      case Endpoint(name) => AvailableBounds(cfg.endpoints[name], s.endpoints[name], now, now);
      case Address(name) =>
        if name in s.addresses {
          AvailableBounds(cfg.address, s.addresses[name], now, now);
        }
      case Job(name) =>
        if JobKey(name) in s.jobs {
          AvailableBounds(cfg.job, s.jobs[JobKey(name)], now, now);
        }
    }
  }

  /** Grants are paid for by the tokens at hand and those that flow in. */
  lemma {:induction false} GrantsPaidFor(cfg: Config, s: State, now: real, events: seq<Event>, m: Meter)
    requires Sane(cfg) && Inv(cfg, s, now) && Ordered(now, events)
    requires Exists(cfg, m) && KeptThroughout(cfg, s, events, m)
    ensures GrantCount(cfg, s, events, m) as real
         <= Level(cfg, s, m, now) + Flow(LimitOf(cfg, m).rate as real, EndTime(now, events) - now)
    decreases |events|
  {
    if events == [] {
      LevelBounds(cfg, s, m, now);
      FlowAdds(LimitOf(cfg, m).rate as real, 0.0, 0.0);
    } else {
      var e := events[0];
      var rate, end := LimitOf(cfg, m).rate as real, EndTime(now, events);
      var o := Step(cfg, s, e);
      InvLater(cfg, s, now, e.at);
      LevelGrows(cfg, s, m, now, e.at);
      StepLevel(cfg, s, e, m);
      StepKeeps(cfg, s, now, e);
      GrantsPaidFor(cfg, o.state, e.at, events[1..], m);
      FlowAdds(rate, e.at - now, end - e.at);
    }
  }

  // ---------------------------------------------------------------- windows

  lemma {:induction false} OrderedSplit(now: real, pre: seq<Event>, win: seq<Event>)
    requires Ordered(now, pre + win)
    ensures Ordered(now, pre) && Ordered(EndTime(now, pre), win)
    decreases |pre|
  {
    if pre == [] {
      assert pre + win == win;
    } else {
      assert (pre + win)[1..] == pre[1..] + win;
      OrderedSplit(pre[0].at, pre[1..], win);
    }
  }

  lemma {:induction false} EndTimeLater(now: real, events: seq<Event>)
    requires Ordered(now, events)
    ensures EndTime(now, events) >= now
    decreases |events|
  {
    if events != [] {
      EndTimeLater(events[0].at, events[1..]);
    }
  }

  lemma OrderedFromFirst(now: real, win: seq<Event>)
    requires win != [] && Ordered(now, win)
    ensures Ordered(win[0].at, win) && EndTime(win[0].at, win) == EndTime(now, win) >= win[0].at
  {
    EndTimeLater(win[0].at, win[1..]);
  }

  lemma LevelCovers(cfg: Config, s: State, m: Meter, now: real, d: real, count: nat)
    requires Sane(cfg) && Inv(cfg, s, now) && Exists(cfg, m)
    requires count as real <= Level(cfg, s, m, now) + Flow(LimitOf(cfg, m).rate as real, d)
    ensures count as real <= Allowance(cfg, m, d)
  {
    LevelBounds(cfg, s, m, now);
  }

  lemma WindowFrom(cfg: Config, s: State, now: real, win: seq<Event>, m: Meter)
    requires Sane(cfg) && Inv(cfg, s, now) && Ordered(now, win) && win != [] && Exists(cfg, m)
    requires KeptThroughout(cfg, s, win, m)
    ensures GrantCount(cfg, s, win, m) as real
         <= Allowance(cfg, m, EndTime(now, win) - win[0].at)
  {
    InvLater(cfg, s, now, win[0].at);
    OrderedFromFirst(now, win);
    GrantsPaidFor(cfg, s, win[0].at, win, m);
    LevelCovers(cfg, s, m, win[0].at, EndTime(now, win) - win[0].at, GrantCount(cfg, s, win, m));
  }

  lemma {:induction false} EndTimeConcat(now: real, pre: seq<Event>, win: seq<Event>)
    ensures EndTime(now, pre + win) == EndTime(EndTime(now, pre), win)
    decreases |pre|
  {
    if pre == [] {
      assert pre + win == win;
    } else {
      assert (pre + win)[1..] == pre[1..] + win;
      EndTimeConcat(pre[0].at, pre[1..], win);
    }
  }

  lemma RunWindow(cfg: Config, s: State, start: real, pre: seq<Event>, win: seq<Event>, m: Meter)
    requires Sane(cfg) && Inv(cfg, s, start) && Ordered(start, pre + win) && win != [] && Exists(cfg, m)
    requires KeptThroughout(cfg, After(cfg, s, pre), win, m)
    ensures GrantCount(cfg, After(cfg, s, pre), win, m) as real
         <= Allowance(cfg, m, EndTime(start, pre + win) - win[0].at)
  {
    var r, now := After(cfg, s, pre), EndTime(start, pre);
    OrderedSplit(start, pre, win);
    RunKeeps(cfg, s, start, pre);
    EndTimeConcat(start, pre, win);
    assert EndTime(start, pre + win) == EndTime(now, win);
    WindowFrom(cfg, r, now, win, m);
  }

  /** In every run, the requests granted against a limit within a window are at most its burst plus
      its rate times the window's length; for an address or its submissions, while the bucket is not
      evicted, nor cleaned up before it could refill. */
  lemma {:induction false} WindowBound(cfg: Config, start: real, pre: seq<Event>, win: seq<Event>, m: Meter)
    requires Sane(cfg) && Ordered(start, pre + win) && win != [] && Exists(cfg, m)
    requires KeptThroughout(cfg, After(cfg, Init(cfg, start), pre), win, m)
    ensures GrantCount(cfg, After(cfg, Init(cfg, start), pre), win, m) as real
         <= Allowance(cfg, m, EndTime(start, pre + win) - win[0].at)
  {
    InitInv(cfg, start);
    RunWindow(cfg, Init(cfg, start), start, pre, win, m);
  }

  /** No bucket is lost in a global or endpoint window. */
  lemma {:induction false} SharedKept(cfg: Config, s: State, events: seq<Event>, m: Meter)
    requires Shared(m) && Exists(cfg, m)
    ensures KeptThroughout(cfg, s, events, m)
    decreases |events|
  {
    if events != [] {
      SharedKept(cfg, Step(cfg, s, events[0]).state, events[1..], m);
    }
  }

  /** The global limit and every endpoint limit hold over all windows of all runs, whatever is
      evicted or cleaned up meanwhile. */
  lemma {:induction false} SharedWindowBound(cfg: Config, start: real, pre: seq<Event>, win: seq<Event>, m: Meter)
    requires Sane(cfg) && Ordered(start, pre + win) && win != [] && Exists(cfg, m) && Shared(m)
    ensures GrantCount(cfg, After(cfg, Init(cfg, start), pre), win, m) as real
         <= Allowance(cfg, m, EndTime(start, pre + win) - win[0].at)
  {
    SharedKept(cfg, After(cfg, Init(cfg, start), pre), win, m);
    WindowBound(cfg, start, pre, win, m);
  }

  // ---------------------------------------------------------------- windows with cleanup

  /** The tables hold only the given keys, and have room for all of them. */
  predicate HasRoom(cfg: Config, s: State, addresses: set<bytes>, jobs: set<bytes>)
  {
    && s.addresses.Keys <= addresses && |addresses| <= cfg.maxTracked
    && s.jobs.Keys <= jobs && |jobs| <= cfg.maxTracked
  }

  lemma AddressKept(cfg: Config, s: State, e: Event, name: bytes, addresses: set<bytes>, jobs: set<bytes>)
    requires HasRoom(cfg, s, addresses, jobs) && Uses(e, addresses, jobs) && !e.Cleanup?
    ensures name in s.addresses ==> name in Step(cfg, s, e).state.addresses
  {
    if e.address != [] {
      NoEviction(s.addresses, e.address, cfg.maxTracked, addresses);
    }
  }

  lemma JobKept(cfg: Config, s: State, e: Event, key: bytes, addresses: set<bytes>, jobs: set<bytes>)
    requires HasRoom(cfg, s, addresses, jobs) && Uses(e, addresses, jobs) && !e.Cleanup?
    ensures key in s.jobs ==> key in Step(cfg, s, e).state.jobs
  {
    if e.Submit? {
      NoEviction(s.jobs, JobKey(e.address), cfg.maxTracked, jobs);
    }
  }

  lemma RoomLosesNothing(cfg: Config, s: State, e: Event, m: Meter, addresses: set<bytes>, jobs: set<bytes>)
    requires HasRoom(cfg, s, addresses, jobs) && Uses(e, addresses, jobs) && Exists(cfg, m)
    requires Recovers(LimitOf(cfg, m), StaleTime(cfg))
    ensures LosesNothing(cfg, s, e, m)
  {
    if !e.Cleanup? {
      match m {
        case Global =>
        case Endpoint(_) =>
        case Address(name) => AddressKept(cfg, s, e, name, addresses, jobs);
        case Job(name) => JobKept(cfg, s, e, JobKey(name), addresses, jobs);
      }
    }
  }

  /** A step makes no bucket but for the keys it uses. */
  lemma StepKeepsRoom(cfg: Config, s: State, e: Event, addresses: set<bytes>, jobs: set<bytes>)
    requires HasRoom(cfg, s, addresses, jobs) && Uses(e, addresses, jobs)
    ensures HasRoom(cfg, Step(cfg, s, e).state, addresses, jobs)
  {
    if !e.Cleanup? {
      StepAddresses(cfg, s, e);
      StepJobs(cfg, s, e);
    }
  }

  lemma {:induction false} RunKeepsRoom(cfg: Config, s: State, events: seq<Event>, addresses: set<bytes>,
                                        jobs: set<bytes>)
    requires HasRoom(cfg, s, addresses, jobs) && AllUse(events, addresses, jobs)
    ensures HasRoom(cfg, After(cfg, s, events), addresses, jobs)
    decreases |events|
  {
    if events != [] {
      assert Uses(events[0], addresses, jobs);
      StepKeepsRoom(cfg, s, events[0], addresses, jobs);
      RunKeepsRoom(cfg, Step(cfg, s, events[0]).state, events[1..], addresses, jobs);
    }
  }

  /** With room for all keys, and time to refill before cleanup, no bucket's tokens are ever lost. */
  lemma {:induction false} RoomKept(cfg: Config, s: State, events: seq<Event>, m: Meter,
                                    addresses: set<bytes>, jobs: set<bytes>)
    requires HasRoom(cfg, s, addresses, jobs) && AllUse(events, addresses, jobs) && Exists(cfg, m)
    requires Recovers(LimitOf(cfg, m), StaleTime(cfg))
    ensures KeptThroughout(cfg, s, events, m)
    decreases |events|
  {
    if events != [] {
      assert Uses(events[0], addresses, jobs);
      RoomLosesNothing(cfg, s, events[0], m, addresses, jobs);
      StepKeepsRoom(cfg, s, events[0], addresses, jobs);
      RoomKept(cfg, Step(cfg, s, events[0]).state, events[1..], m, addresses, jobs);
    }
  }

  lemma AllUseSplit(pre: seq<Event>, win: seq<Event>, addresses: set<bytes>, jobs: set<bytes>)
    requires AllUse(pre + win, addresses, jobs)
    ensures AllUse(pre, addresses, jobs) && AllUse(win, addresses, jobs)
  {
    assert forall i :: 0 <= i < |pre| ==> (pre + win)[i] == pre[i];
    assert forall i :: 0 <= i < |win| ==> (pre + win)[|pre| + i] == win[i];
  }

  /** When a limit's idle buckets recover before cleanup removes them, its window bound holds for every
      address and every submitter, over every window of every run, cleanups included. */
  lemma {:induction false} WindowBoundWithCleanup(cfg: Config, start: real, pre: seq<Event>, win: seq<Event>, m: Meter,
                                                  addresses: set<bytes>, jobs: set<bytes>)
    requires Sane(cfg) && Ordered(start, pre + win) && win != [] && Exists(cfg, m)
    requires AllUse(pre + win, addresses, jobs) && |addresses| <= cfg.maxTracked && |jobs| <= cfg.maxTracked
    requires Recovers(LimitOf(cfg, m), StaleTime(cfg))
    ensures GrantCount(cfg, After(cfg, Init(cfg, start), pre), win, m) as real
         <= Allowance(cfg, m, EndTime(start, pre + win) - win[0].at)
  {
    AllUseSplit(pre, win, addresses, jobs);
    RunKeepsRoom(cfg, Init(cfg, start), pre, addresses, jobs);
    RoomKept(cfg, After(cfg, Init(cfg, start), pre), win, m, addresses, jobs);
    WindowBound(cfg, start, pre, win, m);
  }
}
