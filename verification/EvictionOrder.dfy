/**
 Whether the eviction of app/ratelimit.go is deterministic: it is while no two buckets of a table
 were last used at the same instant, and a tie can be observed.
 */
module EvictionOrder {
  import opened Encoding
  import opened RateLimit

  // ---------------------------------------------------------------- one eviction

  /** No bucket was last used before this one. */
  predicate Oldest(m: Buckets, key: bytes)
    requires key in m
  {
    forall k :: k in m ==> m[key].last <= m[k].last
  }

  /** Two buckets share the oldest last use. */
  predicate Tied(m: Buckets)
  {
    exists j, k :: j in m && k in m && j != k && m[j].last == m[k].last && Oldest(m, j)
  }

  /** The eviction has one possible victim exactly when the oldest last use is not shared. */
  lemma {:induction false} VictimUniqueIff(m: Buckets)
    ensures (forall v, w :: Stalest(m, v) && Stalest(m, w) ==> v == w) <==> !Tied(m)
  {
    if !Tied(m) {
      forall v, w | Stalest(m, v) && Stalest(m, w)
        ensures v == w
      {
        if v != w {
          assert m[v].last == m[w].last && Oldest(m, v);
        }
      }
    } else {
      var j, k :| j in m && k in m && j != k && m[j].last == m[k].last && Oldest(m, j);
      assert Stalest(m, j) && Stalest(m, k);
    }
  }

  // ---------------------------------------------------------------- runs

  predicate EvictsJob(cfg: Config, s: State, e: Event)
  {
    e.Submit? && Evicts(s.jobs, JobKey(e.address), cfg.maxTracked) && JobKey(e.address) in Step(cfg, s, e).state.jobs
  }

  /** Wherever a call evicts, the victim it names is one the code may pick. */
  predicate Legitimate(cfg: Config, s: State, e: Event)
  {
    !e.Cleanup? ==>
    && (EvictsAddress(cfg, s, e.at, e.address) ==> Stalest(s.addresses, e.victim))
    && (EvictsJob(cfg, s, e) ==> Stalest(s.jobs, e.jobVictim))
  }

  predicate LegitimateRun(cfg: Config, s: State, events: seq<Event>)
    decreases |events|
  {
    events == [] ||
    (Legitimate(cfg, s, events[0]) && LegitimateRun(cfg, Step(cfg, s, events[0]).state, events[1..]))
  }

  /** The same call, up to the victims. */
  predicate SameCall(e: Event, f: Event)
  {
    match e
    case Allow(at, address, endpoint, _) => f.Allow? && f.at == at && f.address == address && f.endpoint == endpoint
    case Submit(at, address, _, _) => f.Submit? && f.at == at && f.address == address
    case Cleanup(at) => f == e
  }

  predicate SameCalls(x: seq<Event>, y: seq<Event>)
  {
    |x| == |y| && forall i :: 0 <= i < |x| ==> SameCall(x[i], y[i])
  }

  /** Every event comes later than the one before it. */
  predicate Strict(now: real, events: seq<Event>)
    decreases |events|
  {
    events == [] || (now < events[0].at && Strict(events[0].at, events[1..]))
  }

  /** All last uses are different, and past. */
  predicate Spread(m: Buckets, now: real)
  {
    && (forall k :: k in m ==> m[k].last <= now)
    && (forall j, k :: j in m && k in m && j != k ==> m[j].last != m[k].last)
  }

  predicate SpreadState(s: State, now: real)
  {
    Spread(s.addresses, now) && Spread(s.jobs, now)
  }

  lemma SpreadUnique(m: Buckets, now: real, v: bytes, w: bytes)
    requires Spread(m, now) && Stalest(m, v) && Stalest(m, w)
    ensures v == w
  {
  }

  lemma TouchSpread(m: Buckets, key: bytes, max: int, limit: Limit, now: real, at: real, victim: bytes)
    requires Spread(m, now) && now < at
    ensures var r := GetOrCreate(m, key, max, limit, at, victim); Spread(r[key := Take(r[key], at)], at)
  {
  }

  lemma SpreadLater(m: Buckets, now: real, at: real)
    requires Spread(m, now) && now <= at
    ensures Spread(m, at)
  {
  }

  lemma SweepSpread(m: Buckets, now: real, at: real, stale: real)
    requires Spread(m, now) && now <= at
    ensures Spread(Sweep(m, at, stale), at)
  {
  }

  lemma AddressesSpread(cfg: Config, s: State, now: real, e: Event)
    requires Spread(s.addresses, now) && now < e.at
    ensures Spread(Step(cfg, s, e).state.addresses, e.at)
  {
    if e.Cleanup? {
      SweepSpread(s.addresses, now, e.at, StaleTime(cfg));
    } else {
      StepAddresses(cfg, s, e);
      SpreadLater(s.addresses, now, e.at);
      TouchSpread(s.addresses, e.address, cfg.maxTracked, cfg.address, now, e.at, e.victim);
    }
  }

  lemma JobsSpread(cfg: Config, s: State, now: real, e: Event)
    requires Spread(s.jobs, now) && now < e.at
    ensures Spread(Step(cfg, s, e).state.jobs, e.at)
  {
    if e.Cleanup? {
      SweepSpread(s.jobs, now, e.at, StaleTime(cfg));
    } else {
      StepJobs(cfg, s, e);
      SpreadLater(s.jobs, now, e.at);
      if e.Submit? {
        TouchSpread(s.jobs, JobKey(e.address), cfg.maxTracked, cfg.job, now, e.at, e.jobVictim);
      }
    }
  }

  lemma StepSpread(cfg: Config, s: State, now: real, e: Event)
    requires SpreadState(s, now) && now < e.at
    ensures SpreadState(Step(cfg, s, e).state, e.at)
  {
    AddressesSpread(cfg, s, now, e);
    JobsSpread(cfg, s, now, e);
  }

  lemma SameTable(m: Buckets, key: bytes, max: int, limit: Limit, now: real, at: real, v: bytes, w: bytes)
    requires Spread(m, now) && (Evicts(m, key, max) ==> Stalest(m, v) && Stalest(m, w))
    ensures GetOrCreate(m, key, max, limit, at, v) == GetOrCreate(m, key, max, limit, at, w)
  {
    if Evicts(m, key, max) {
      SpreadUnique(m, now, v, w);
    }
  }

  /** Without a tie the legitimate victim, and so the whole step, is determined. */
  lemma StepDetermined(cfg: Config, s: State, now: real, e: Event, f: Event)
    requires SpreadState(s, now) && SameCall(e, f) && Legitimate(cfg, s, e) && Legitimate(cfg, s, f)
    ensures Step(cfg, s, e) == Step(cfg, s, f)
  {
    if !e.Cleanup? && Granted(s.global, e.at) {
      var g := TakeGlobal(s, e.at);
      if e.address != [] {
        SameTable(s.addresses, e.address, cfg.maxTracked, cfg.address, now, e.at, e.victim, f.victim);
      }
      var a := TakeAddress(cfg, g.state, e.at, e.address, e.victim);
      assert a == TakeAddress(cfg, g.state, e.at, e.address, f.victim);
      var p := TakeEndpoint(a.state, e.at, JOB_ENDPOINT);
      if e.Submit? && a.ok && p.ok {
        assert JobKey(e.address) in Step(cfg, s, e).state.jobs && JobKey(e.address) in Step(cfg, s, f).state.jobs;
        SameTable(s.jobs, JobKey(e.address), cfg.maxTracked, cfg.job, now, e.at, e.jobVictim, f.jobVictim);
      }
    }
  }

  lemma {:induction false} RunDetermined(cfg: Config, s: State, now: real, x: seq<Event>, y: seq<Event>)
    requires SpreadState(s, now) && Strict(now, x) && SameCalls(x, y)
    requires LegitimateRun(cfg, s, x) && LegitimateRun(cfg, s, y)
    ensures Answers(cfg, s, x) == Answers(cfg, s, y) && After(cfg, s, x) == After(cfg, s, y)
    decreases |x|
  {
    if x != [] {
      assert SameCall(x[0], y[0]);
      StepDetermined(cfg, s, now, x[0], y[0]);
      StepSpread(cfg, s, now, x[0]);
      assert SameCalls(x[1..], y[1..]);
      RunDetermined(cfg, Step(cfg, s, x[0]).state, x[0].at, x[1..], y[1..]);
    }
  }

  /** While every call comes later than the one before it, the code's choice of victims is no choice:
      the calls alone determine all answers and the state. */
  lemma {:induction false} StrictRunsDetermined(cfg: Config, start: real, x: seq<Event>, y: seq<Event>)
    requires Strict(start, x) && SameCalls(x, y)
    requires LegitimateRun(cfg, Init(cfg, start), x) && LegitimateRun(cfg, Init(cfg, start), y)
    ensures Answers(cfg, Init(cfg, start), x) == Answers(cfg, Init(cfg, start), y)
    ensures After(cfg, Init(cfg, start), x) == After(cfg, Init(cfg, start), y)
  {
    RunDetermined(cfg, Init(cfg, start), start, x, y);
  }

  // ---------------------------------------------------------------- a tie

  /** Room for two addresses, with one request each and no refill. */
  const TWO_SLOTS: Config := Config(Limit(9, 0), Limit(1, 0), Limit(1, 0), map[], 1.0, 2)

  /** Address 3 takes the place of the given one, and address 1 asks again. */
  function TiedTail(first: bytes): seq<Event>
  {
    [Allow(0.0, [3], [], first)] + ([Allow(0.0, [1], [], [2])] + [])
  }

  /** Addresses 1 and 2 use up their buckets at one instant; then that. */
  function TiedRun(first: bytes): seq<Event>
  {
    [Allow(0.0, [1], [], [])] + ([Allow(0.0, [2], [], [])] + TiedTail(first))
  }

  const SPENT: Bucket := Bucket(0.0, 1.0, 0.0, 0.0)

  function GlobalWith(tokens: real): Bucket { Bucket(tokens, 9.0, 0.0, 0.0) }

  function Table(addresses: Buckets, tokens: real): State
  {
    State(GlobalWith(tokens), addresses, map[], map[])
  }

  lemma TiedBuckets(tokens: real)
    requires 1.0 <= tokens <= 9.0
    ensures Granted(GlobalWith(tokens), 0.0) && Take(GlobalWith(tokens), 0.0) == GlobalWith(tokens - 1.0)
    ensures Granted(NewBucket(1, 0, 0.0), 0.0) && Take(NewBucket(1, 0, 0.0), 0.0) == SPENT
    ensures !Granted(SPENT, 0.0) && Take(SPENT, 0.0) == SPENT
  {
  }

  /** A request at time 0 of an address without a bucket is granted. */
  lemma NewcomerGranted(m: Buckets, tokens: real, address: bytes, victim: bytes)
    requires 1.0 <= tokens <= 9.0 && address != [] && address !in m
    ensures var e, r := Allow(0.0, address, [], victim), if |m| >= 2 then m - {victim} else m;
      && Step(TWO_SLOTS, Table(m, tokens), e) == Outcome(Table(r[address := SPENT], tokens - 1.0), true)
      && (Legitimate(TWO_SLOTS, Table(m, tokens), e) <==> |m| < 2 || Stalest(m, victim))
  {
    TiedBuckets(tokens);
    var fresh' := GetOrCreate(m, address, 2, Limit(1, 0), 0.0, victim);
    assert fresh'[address] == NewBucket(1, 0, 0.0);
    assert fresh'[address := SPENT] == (if |m| >= 2 then m - {victim} else m)[address := SPENT];
  }

  /** With a spent bucket it is not. */
  lemma SpentDenied(m: Buckets, tokens: real, address: bytes, victim: bytes)
    requires 1.0 <= tokens <= 9.0 && address != [] && address in m && m[address] == SPENT
    ensures var e := Allow(0.0, address, [], victim);
      && Step(TWO_SLOTS, Table(m, tokens), e) == Outcome(Table(m, tokens - 1.0), false)
      && Legitimate(TWO_SLOTS, Table(m, tokens), e)
  {
    TiedBuckets(tokens);
    assert m[address := SPENT] == m;
  }

  lemma RunStep(cfg: Config, s: State, e: Event, rest: seq<Event>, o: Outcome)
    requires !e.Cleanup? && Step(cfg, s, e) == o
    ensures Answers(cfg, s, [e] + rest) == [o.ok] + Answers(cfg, o.state, rest)
    ensures LegitimateRun(cfg, s, [e] + rest) <==> Legitimate(cfg, s, e) && LegitimateRun(cfg, o.state, rest)
  {
    assert ([e] + rest)[1..] == rest;
  }

  const ONE: Buckets := map[[1] := SPENT]
  const BOTH: Buckets := map[[1] := SPENT, [2] := SPENT]

  /** After the first two requests both buckets are spent, and either may be evicted. */
  lemma TiedStart(rest: seq<Event>)
    ensures var s, t := Init(TWO_SLOTS, 0.0), Table(BOTH, 7.0);
      var run := [Allow(0.0, [1], [], [])] + ([Allow(0.0, [2], [], [])] + rest);
      && Answers(TWO_SLOTS, s, run) == [true] + ([true] + Answers(TWO_SLOTS, t, rest))
      && (LegitimateRun(TWO_SLOTS, s, run) <==> LegitimateRun(TWO_SLOTS, t, rest))
  {
    var s := Init(TWO_SLOTS, 0.0);
    assert s == Table(map[], 9.0);
    NewcomerGranted(map[], 9.0, [1], []);
    NewcomerGranted(ONE, 8.0, [2], []);
    assert ONE[[2] := SPENT] == BOTH;
    RunStep(TWO_SLOTS, Table(ONE, 8.0), Allow(0.0, [2], [], []), rest, Outcome(Table(BOTH, 7.0), true));
    RunStep(TWO_SLOTS, s, Allow(0.0, [1], [], []), [Allow(0.0, [2], [], [])] + rest, Outcome(Table(ONE, 8.0), true));
  }

  lemma NothingLeft(cfg: Config, s: State)
    ensures Answers(cfg, s, []) == [] && LegitimateRun(cfg, s, [])
  {
  }

  const OTHERS: Buckets := map[[2] := SPENT, [3] := SPENT]
  const REMADE: Buckets := map[[3] := SPENT, [1] := SPENT]

  lemma TiedMaps()
    ensures |BOTH| == |OTHERS| == 2 && Stalest(BOTH, [1]) && Stalest(BOTH, [2]) && Stalest(OTHERS, [2])
    ensures (BOTH - {[1]})[[3] := SPENT] == OTHERS
    ensures (OTHERS - {[2]})[[1] := SPENT] == REMADE
    ensures (BOTH - {[2]})[[3] := SPENT] == REMADE && [1] in REMADE && REMADE[[1]] == SPENT && [3] !in BOTH
  {
    assert BOTH.Keys == {[1], [2]} && OTHERS.Keys == {[2], [3]};
  }

  /** The newcomer takes the place of address 1, which then is new again. */
  lemma TiedFirst()
    ensures var t := Table(BOTH, 7.0);
      Answers(TWO_SLOTS, t, TiedTail([1])) == [true] + ([true] + []) && LegitimateRun(TWO_SLOTS, t, TiedTail([1]))
  {
    TiedMaps();
    var again := Allow(0.0, [1], [], [2]);
    NewcomerGranted(OTHERS, 6.0, [1], [2]);
    NothingLeft(TWO_SLOTS, Table(REMADE, 5.0));
    RunStep(TWO_SLOTS, Table(OTHERS, 6.0), again, [], Outcome(Table(REMADE, 5.0), true));
    NewcomerGranted(BOTH, 7.0, [3], [1]);
    RunStep(TWO_SLOTS, Table(BOTH, 7.0), Allow(0.0, [3], [], [1]), [again] + [], Outcome(Table(OTHERS, 6.0), true));
  }

  /** The newcomer takes the place of address 2, and address 1 keeps its spent bucket. */
  lemma TiedSecond()
    ensures var t := Table(BOTH, 7.0);
      Answers(TWO_SLOTS, t, TiedTail([2])) == [true] + ([false] + []) && LegitimateRun(TWO_SLOTS, t, TiedTail([2]))
  {
    TiedMaps();
    var again := Allow(0.0, [1], [], [2]);
    SpentDenied(REMADE, 6.0, [1], [2]);
    NothingLeft(TWO_SLOTS, Table(REMADE, 5.0));
    RunStep(TWO_SLOTS, Table(REMADE, 6.0), again, [], Outcome(Table(REMADE, 5.0), false));
    NewcomerGranted(BOTH, 7.0, [3], [2]);
    RunStep(TWO_SLOTS, Table(BOTH, 7.0), Allow(0.0, [3], [], [2]), [again] + [], Outcome(Table(REMADE, 6.0), true));
  }

  lemma SameCallsCons(e: Event, f: Event, x: seq<Event>, y: seq<Event>)
    requires SameCall(e, f) && SameCalls(x, y)
    ensures SameCalls([e] + x, [f] + y)
  {
  }

  lemma TiedCalls()
    ensures SameCalls(TiedRun([1]), TiedRun([2]))
  {
    var last := [Allow(0.0, [1], [], [2])] + [];
    SameCallsCons(Allow(0.0, [3], [], [1]), Allow(0.0, [3], [], [2]), last, last);
    SameCallsCons(Allow(0.0, [2], [], []), Allow(0.0, [2], [], []), TiedTail([1]), TiedTail([2]));
    SameCallsCons(Allow(0.0, [1], [], []), Allow(0.0, [1], [], []),
                  [Allow(0.0, [2], [], [])] + TiedTail([1]), [Allow(0.0, [2], [], [])] + TiedTail([2]));
  }

  lemma OrderedCons(e: Event, rest: seq<Event>)
    requires e.at == 0.0 && Ordered(0.0, rest)
    ensures Ordered(0.0, [e] + rest)
  {
    assert ([e] + rest)[1..] == rest;
  }

  lemma TiedOrdered(first: bytes)
    ensures Ordered(0.0, TiedRun(first))
  {
    OrderedCons(Allow(0.0, [1], [], [2]), []);
    OrderedCons(Allow(0.0, [3], [], first), [Allow(0.0, [1], [], [2])] + []);
    OrderedCons(Allow(0.0, [2], [], []), TiedTail(first));
    OrderedCons(Allow(0.0, [1], [], []), [Allow(0.0, [2], [], [])] + TiedTail(first));
  }

  /** A tie can be observed: two runs of the same calls, both legitimate, with different answers. The
      spent bucket of address 1 is evicted and made anew, or kept. */
  lemma {:induction false} TieObserved()
    ensures Ordered(0.0, TiedRun([1])) && SameCalls(TiedRun([1]), TiedRun([2]))
    ensures var s := Init(TWO_SLOTS, 0.0);
      && LegitimateRun(TWO_SLOTS, s, TiedRun([1])) && LegitimateRun(TWO_SLOTS, s, TiedRun([2]))
      && Answers(TWO_SLOTS, s, TiedRun([1])) == [true] + ([true] + ([true] + ([true] + [])))
      && Answers(TWO_SLOTS, s, TiedRun([2])) == [true] + ([true] + ([true] + ([false] + [])))
  {
    TiedFirst();
    TiedSecond();
    TiedStart(TiedTail([1]));
    TiedStart(TiedTail([2]));
    TiedOrdered([1]);
    TiedCalls();
  }
}
