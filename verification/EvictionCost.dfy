/**
 What eviction costs: an address whose bucket is evicted gets a full new one, so the window bound of
 module RateWindow does not hold for it.
 */
module EvictionCost {
  import opened Encoding
  import opened RateLimit
  import opened CleanupInvisible
  import opened RateWindow
  import opened CleanupExact
  import opened EvictionOrder

  // ---------------------------------------------------------------- requests at one instant

  /** All buckets of the table were last used at time 0, so any of them may be evicted. */
  predicate AllTied(m: Buckets) { forall k :: k in m ==> m[k].last == 0.0 }

  /** At time 0, with n tokens left in the global bucket. */
  predicate Funded(cfg: Config, s: State, n: nat)
  {
    Sane(cfg) && Inv(cfg, s, 0.0) && AllTied(s.addresses) && Available(s.global, 0.0) >= n as real
  }

  function AskAs(address: bytes, victim: bytes): Event { Allow(0.0, address, [], victim) }

  /** The keys of the table after a newcomer. */
  function KeysWith(m: Buckets, key: bytes, max: int, victim: bytes): set<bytes>
  {
    (if Evicts(m, key, max) then m.Keys - {victim} else m.Keys) + {key}
  }

  /** A bucket at time 0 with a token to spare gives it. */
  lemma TakenFrom(limit: Limit, b: Bucket)
    requires Natural(limit) && BucketInv(limit, b, 0.0) && Available(b, 0.0) >= 1.0
    ensures Granted(b, 0.0) && Take(b, 0.0).last == 0.0 && Available(Take(b, 0.0), 0.0) == Available(b, 0.0) - 1.0
  {
    LevelAfterTake(limit, b, 0.0);
  }

  /** A request that finds a token in its bucket, new or old, is granted. */
  lemma AskGranted(cfg: Config, s: State, address: bytes, victim: bytes, n: nat)
    requires Funded(cfg, s, n) && n >= 1 && address != []
    requires LevelIn(s.addresses, address, cfg.address, 0.0) >= 1.0
    requires Evicts(s.addresses, address, cfg.maxTracked) ==> victim in s.addresses
    ensures var o := Step(cfg, s, AskAs(address, victim));
      && o.ok && Funded(cfg, o.state, n - 1) && Legitimate(cfg, s, AskAs(address, victim))
      && o.state.addresses.Keys == (if address in s.addresses then s.addresses.Keys
                                    else KeysWith(s.addresses, address, cfg.maxTracked, victim))
      && LevelIn(o.state.addresses, address, cfg.address, 0.0) == LevelIn(s.addresses, address, cfg.address, 0.0) - 1.0
  {
    StepKeeps(cfg, s, 0.0, AskAs(address, victim));
    TakenFrom(cfg.global, s.global);
    var r := GetOrCreate(s.addresses, address, cfg.maxTracked, cfg.address, 0.0, victim);
    NoFlow(cfg.address, 0.0);
    TakenFrom(cfg.address, r[address]);
  }

  /** One event e in state s, legitimate and leading to t; it counts for the limit or not. */
  ghost predicate Moves(cfg: Config, s: State, e: Event, t: State, m: Meter, counted: bool)
  {
    && !e.Cleanup? && Step(cfg, s, e) == Outcome(t, true) && Legitimate(cfg, s, e) && (Counts(m, e) <==> counted)
  }

  /** The run starts with a request, and the rest follows from the state after it. */
  lemma RunFrom(cfg: Config, s: State, e: Event, t: State, rest: seq<Event>, m: Meter, counted: bool)
    requires Moves(cfg, s, e, t, m, counted)
    ensures GrantCount(cfg, s, [e] + rest, m) == (if counted then 1 else 0) + GrantCount(cfg, t, rest, m)
    ensures LegitimateRun(cfg, s, [e] + rest) <==> LegitimateRun(cfg, t, rest)
  {
    assert ([e] + rest)[1..] == rest;
  }

  predicate AllAtZero(events: seq<Event>) { forall i :: 0 <= i < |events| ==> events[i].at == 0.0 }

  lemma {:induction false} AtZeroOrdered(events: seq<Event>)
    requires AllAtZero(events)
    ensures Ordered(0.0, events) && EndTime(0.0, events) == 0.0
    decreases |events|
  {
    if events != [] {
      AtZeroOrdered(events[1..]);
    }
  }

  // ---------------------------------------------------------------- one request, newcomers, a whole burst

  const NAME: bytes := [0]

  function Newcomer(i: nat): bytes { Zeros(i + 2) }

  /** n requests of the address. */
  function Asks(n: nat, victim: bytes): seq<Event>
  {
    if n == 0 then [] else [AskAs(NAME, victim)] + Asks(n - 1, victim)
  }

  /** How many newcomers it takes to push the address out of the table. */
  function Slots(cfg: Config): nat { if cfg.maxTracked <= 1 then 1 else cfg.maxTracked }

  /** The rest of the newcomers, and then the burst. */
  function CrowdThenBurst(cfg: Config, i: nat, b: nat): seq<Event>
    requires i <= Slots(cfg)
    decreases Slots(cfg) - i
  {
    if i == Slots(cfg) then Asks(b, Newcomer(0)) else [AskAs(Newcomer(i), NAME)] + CrowdThenBurst(cfg, i + 1, b)
  }

  /** One request, as many newcomers as the table has slots, and a whole burst. */
  function Push(cfg: Config): seq<Event>
    requires cfg.address.burst >= 0
  {
    [AskAs(NAME, [])] + CrowdThenBurst(cfg, 0, cfg.address.burst)
  }

  lemma NameAsks(cfg: Config, s: State, victim: bytes, n: nat) returns (t: State)
    requires Funded(cfg, s, n) && n >= 1 && LevelIn(s.addresses, NAME, cfg.address, 0.0) >= 1.0
    requires Evicts(s.addresses, NAME, cfg.maxTracked) ==> victim in s.addresses
    ensures Moves(cfg, s, AskAs(NAME, victim), t, Address(NAME), true) && Funded(cfg, t, n - 1)
    ensures NAME in t.addresses && (s.addresses == map[] ==> t.addresses.Keys == {NAME})
    ensures LevelIn(t.addresses, NAME, cfg.address, 0.0) == LevelIn(s.addresses, NAME, cfg.address, 0.0) - 1.0
  {
    AskGranted(cfg, s, NAME, victim, n);
    t := Step(cfg, s, AskAs(NAME, victim)).state;
  }

  /** The address is granted all its asks. */
  lemma {:induction false} AsksGranted(cfg: Config, s: State, n: nat, victim: bytes)
    requires Funded(cfg, s, n) && LevelIn(s.addresses, NAME, cfg.address, 0.0) >= n as real
    requires Evicts(s.addresses, NAME, cfg.maxTracked) ==> victim in s.addresses
    ensures GrantCount(cfg, s, Asks(n, victim), Address(NAME)) == n && LegitimateRun(cfg, s, Asks(n, victim))
    decreases n
  {
    if n > 0 {
      var t := NameAsks(cfg, s, victim, n);
      AsksGranted(cfg, t, n - 1, victim);
      RunFrom(cfg, s, AskAs(NAME, victim), t, Asks(n - 1, victim), Address(NAME), true);
    }
  }

  function Newcomers(i: nat): set<bytes> { set j | 0 <= j < i :: Newcomer(j) }

  lemma {:induction false} NewcomersCount(i: nat)
    ensures |Newcomers(i)| == i && NAME !in Newcomers(i) && Newcomer(i) !in Newcomers(i)
    ensures Newcomers(i + 1) == Newcomers(i) + {Newcomer(i)}
  {
    assert forall j: nat :: |Newcomer(j)| == j + 2;
    if i > 0 {
      NewcomersCount(i - 1);
    }
  }

  /** What the table holds after i of the newcomers. */
  function CrowdKeys(cfg: Config, i: nat): set<bytes>
  {
    if i < Slots(cfg) then Newcomers(i) + {NAME} else Newcomers(i)
  }

  lemma CrowdGrows(cfg: Config, m: Buckets, i: nat)
    requires i < Slots(cfg) && m.Keys == CrowdKeys(cfg, i)
    ensures Newcomer(i) !in m && NAME in m && Newcomer(i) != NAME
    ensures KeysWith(m, Newcomer(i), cfg.maxTracked, NAME) == CrowdKeys(cfg, i + 1)
  {
    NewcomersCount(i);
    assert |m| == |m.Keys| == i + 1;
  }

  /** The next newcomer is granted a request; the last of them takes the place of the address. */
  lemma NewcomerArrives(cfg: Config, s: State, i: nat, n: nat) returns (t: State)
    requires cfg.address.burst >= 1 && i < Slots(cfg) && Funded(cfg, s, n) && n >= 1
    requires s.addresses.Keys == CrowdKeys(cfg, i)
    ensures Moves(cfg, s, AskAs(Newcomer(i), NAME), t, Address(NAME), false)
    ensures Funded(cfg, t, n - 1) && t.addresses.Keys == CrowdKeys(cfg, i + 1)
  {
    CrowdGrows(cfg, s.addresses, i);
    AskGranted(cfg, s, Newcomer(i), NAME, n);
    t := Step(cfg, s, AskAs(Newcomer(i), NAME)).state;
  }

  lemma NewcomerFirst(cfg: Config, s: State, i: nat, n: nat, rest: seq<Event>) returns (t: State)
    requires cfg.address.burst >= 1 && i < Slots(cfg) && Funded(cfg, s, n) && n >= 1
    requires s.addresses.Keys == CrowdKeys(cfg, i)
    ensures Funded(cfg, t, n - 1) && t.addresses.Keys == CrowdKeys(cfg, i + 1)
    ensures var events := [AskAs(Newcomer(i), NAME)] + rest;
      && GrantCount(cfg, s, events, Address(NAME)) == GrantCount(cfg, t, rest, Address(NAME))
      && (LegitimateRun(cfg, s, events) <==> LegitimateRun(cfg, t, rest))
  {
    t := NewcomerArrives(cfg, s, i, n);
    RunFrom(cfg, s, AskAs(Newcomer(i), NAME), t, rest, Address(NAME), false);
  }

  /** Pushed out, the address finds a full bucket. */
  lemma PushedOut(cfg: Config, s: State, b: nat)
    requires cfg.address.burst == b && Funded(cfg, s, b)
    requires s.addresses.Keys == CrowdKeys(cfg, Slots(cfg))
    ensures GrantCount(cfg, s, Asks(b, Newcomer(0)), Address(NAME)) == b
    ensures LegitimateRun(cfg, s, Asks(b, Newcomer(0)))
  {
    NewcomersCount(Slots(cfg));
    assert Newcomer(0) in Newcomers(Slots(cfg));
    AsksGranted(cfg, s, b, Newcomer(0));
  }

  lemma {:induction false} CrowdThenAsks(cfg: Config, s: State, i: nat, b: nat)
    requires cfg.address.burst == b >= 1 && i <= Slots(cfg) && Funded(cfg, s, Slots(cfg) - i + b)
    requires s.addresses.Keys == CrowdKeys(cfg, i)
    ensures GrantCount(cfg, s, CrowdThenBurst(cfg, i, b), Address(NAME)) == b
    ensures LegitimateRun(cfg, s, CrowdThenBurst(cfg, i, b))
    decreases Slots(cfg) - i
  {
    if i == Slots(cfg) {
      PushedOut(cfg, s, b);
    } else {
      var t := NewcomerFirst(cfg, s, i, Slots(cfg) - i + b, CrowdThenBurst(cfg, i + 1, b));
      CrowdThenAsks(cfg, t, i + 1, b);
    }
  }

  lemma {:induction false} AsksAtZero(n: nat, victim: bytes)
    ensures AllAtZero(Asks(n, victim))
  {
    if n > 0 {
      AsksAtZero(n - 1, victim);
    }
  }

  lemma {:induction false} CrowdAtZero(cfg: Config, i: nat, b: nat)
    requires i <= Slots(cfg)
    ensures AllAtZero(CrowdThenBurst(cfg, i, b))
    decreases Slots(cfg) - i
  {
    if i == Slots(cfg) {
      AsksAtZero(b, Newcomer(0));
    } else {
      CrowdAtZero(cfg, i + 1, b);
    }
  }

  /** Where the global burst pays for one request, as many newcomers as the table has slots and a whole
      burst, all these come at one instant, every eviction is legitimate, and the address is granted
      more than its burst. */
  lemma {:induction false} EvictionBreaksBound(cfg: Config)
    requires Sane(cfg) && cfg.address.burst >= 1 && cfg.global.burst >= 1 + Slots(cfg) + cfg.address.burst
    ensures Ordered(0.0, Push(cfg)) && EndTime(0.0, Push(cfg)) == 0.0 && Push(cfg)[0].at == 0.0
    ensures LegitimateRun(cfg, Init(cfg, 0.0), Push(cfg))
    ensures GrantCount(cfg, Init(cfg, 0.0), Push(cfg), Address(NAME)) == cfg.address.burst + 1
    ensures GrantCount(cfg, Init(cfg, 0.0), Push(cfg), Address(NAME)) as real > Allowance(cfg, Address(NAME), 0.0)
  {
    var init, b := Init(cfg, 0.0), cfg.address.burst;
    InitInv(cfg, 0.0);
    NoFlow(cfg.global, 0.0);
    var t := NameAsks(cfg, init, [], 1 + Slots(cfg) + b);
    assert Newcomers(0) == {};
    CrowdThenAsks(cfg, t, 0, b);
    RunFrom(cfg, init, AskAs(NAME, []), t, CrowdThenBurst(cfg, 0, b), Address(NAME), true);
    CrowdAtZero(cfg, 0, b);
    AtZeroOrdered(Push(cfg));
    FlowAdds(cfg.address.rate as real, 0.0, 0.0);
  }

  // ---------------------------------------------------------------- the exact condition

  ghost predicate WithinBound(cfg: Config, start: real, pre: seq<Event>, win: seq<Event>, name: bytes)
    requires win != [] && name != []
  {
    GrantCount(cfg, After(cfg, Init(cfg, start), pre), win, Address(name)) as real
    <= Allowance(cfg, Address(name), EndTime(start, pre + win) - win[0].at)
  }

  /** In every legitimate run, every address keeps to its burst and rate in every window, evictions and
      cleanups included. */
  ghost predicate Bounded(cfg: Config)
  {
    forall start, pre, win, name ::
      name != [] && win != [] && Ordered(start, pre + win) && LegitimateRun(cfg, Init(cfg, start), pre + win)
      ==> WithinBound(cfg, start, pre, win, name)
  }

  /** Without a burst an address is never granted anything. */
  lemma {:induction false} NothingGranted(cfg: Config, s: State, now: real, events: seq<Event>, name: bytes)
    requires Sane(cfg) && Inv(cfg, s, now) && Ordered(now, events) && cfg.address.burst == 0 && name != []
    ensures GrantCount(cfg, s, events, Address(name)) == 0
    decreases |events|
  {
    if events != [] {
      var e := events[0];
      StepKeeps(cfg, s, now, e);
      NothingGranted(cfg, Step(cfg, s, e).state, e.at, events[1..], name);
    }
  }

  lemma NoBurstBounded(cfg: Config)
    requires Sane(cfg) && cfg.address.burst == 0
    ensures Bounded(cfg)
  {
    forall start: real, pre: seq<Event>, win: seq<Event>, name: bytes |
        name != [] && win != [] && Ordered(start, pre + win) && LegitimateRun(cfg, Init(cfg, start), pre + win)
      ensures WithinBound(cfg, start, pre, win, name)
    {
      var now := EndTime(start, pre);
      InitInv(cfg, start);
      OrderedSplit(start, pre, win);
      RunKeeps(cfg, Init(cfg, start), start, pre);
      NothingGranted(cfg, After(cfg, Init(cfg, start), pre), now, win, name);
      EndTimeConcat(start, pre, win);
      OrderedFromFirst(now, win);
      FlowNonNegative(cfg.address.rate as real, EndTime(start, pre + win) - win[0].at);
    }
  }

  lemma RoomyUnbounded(cfg: Config)
    requires Sane(cfg) && cfg.address.burst >= 1 && cfg.global.burst >= 1 + Slots(cfg) + cfg.address.burst
    ensures !Bounded(cfg)
  {
    EvictionBreaksBound(cfg);
    assert [] + Push(cfg) == Push(cfg);
    assert !WithinBound(cfg, 0.0, [], Push(cfg), NAME);
  }

  /** For every configuration: with evictions the address bound holds whatever the shared limits
      exactly when the address limit grants nothing at all. */
  lemma {:induction false} BoundedWhateverSharedIff(cfg: Config)
    requires Sane(cfg)
    ensures (forall other :: Sane(other) && SameTables(cfg, other) ==> Bounded(other)) <==> cfg.address.burst == 0
  {
    if cfg.address.burst == 0 {
      forall other | Sane(other) && SameTables(cfg, other)
        ensures Bounded(other)
      {
        NoBurstBounded(other);
      }
    } else {
      var roomy := cfg.(global := Limit(1 + Slots(cfg) + cfg.address.burst, 0));
      RoomyUnbounded(roomy);
      assert Sane(roomy) && SameTables(cfg, roomy);
    }
  }
}
