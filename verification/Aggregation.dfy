/**
 AggregateVoteExtensions of app/vote_extension.go: tally the voting power behind every reported
 output of every job, then pick, for each job, an output that reaches the required power. Go maps
 are iterated in an unspecified order, so the method chooses keys arbitrarily.
 */
module Aggregation {
  import opened Encoding
  import opened VoteTypes

  datatype Vote = Vote(ext: Option<VoteExtension>, power: int64)

  datatype Aggregated = Aggregated(
    jobID: bytes,
    modelHash: bytes,
    inputHash: bytes,
    outputHash: bytes,
    validatorCount: nat,
    totalVotes: nat,
    agreementPower: int64,
    totalPower: int64,
    attestations: seq<ValidatorAttestation>,
    hasConsensus: bool,
    consensusReached: int)

  // ---------------------------------------------------------------- what is tallied

  /** One successful verification, with the power of the vote it came in. The key is the output
      hash in hexadecimal. */
  datatype Entry = Entry(job: bytes, key: bytes, power: int64, att: ValidatorAttestation, model: bytes, input: bytes)

  function EntryOf(ext: VoteExtension, v: ComputeVerification, power: int64): Entry
  {
    Entry(v.jobID, Hex(v.outputHash), power,
          ValidatorAttestation(ext.validatorAddress, v.outputHash, v.attestationType, v.tee, v.zk,
                               v.executionTimeMs, ext.timestamp),
          v.modelHash, v.inputHash)
  }

  function EntriesIn(ext: VoteExtension, vs: seq<ComputeVerification>, power: int64): seq<Entry>
  {
    if vs == [] then []
    else
      var v := vs[|vs| - 1];
      EntriesIn(ext, vs[..|vs| - 1], power) + if v.success then [EntryOf(ext, v, power)] else []
  }

  /** The power a vote counts with: 1 when every vote has power 0 and simulation is allowed. */
  function Weight(v: Vote, fallback: bool): int64
  {
    if fallback then 1 else v.power
  }

  function VoteEntries(v: Vote, fallback: bool): seq<Entry>
  {
    match v.ext
    case None => []
    case Some(ext) => EntriesIn(ext, ext.verifications, Weight(v, fallback))
  }

  function Entries(votes: seq<Vote>, fallback: bool): seq<Entry>
  {
    if votes == [] then []
    else Entries(votes[..|votes| - 1], fallback) + VoteEntries(votes[|votes| - 1], fallback)
  }

  predicate Matches(e: Entry, job: bytes, key: bytes) { e.job == job && e.key == key }

  predicate HasJob(es: seq<Entry>, job: bytes)
  {
    es != [] && (es[|es| - 1].job == job || HasJob(es[..|es| - 1], job))
  }

  predicate HasKey(es: seq<Entry>, job: bytes, key: bytes)
  {
    es != [] && (Matches(es[|es| - 1], job, key) || HasKey(es[..|es| - 1], job, key))
  }

  /** The first entry for a job, whose model and input hash the result carries. */
  function First(es: seq<Entry>, job: bytes): Entry
    requires HasJob(es, job)
  {
    if HasJob(es[..|es| - 1], job) then First(es[..|es| - 1], job) else es[|es| - 1]
  }

  function Atts(es: seq<Entry>, job: bytes, key: bytes): seq<ValidatorAttestation>
  {
    if es == [] then []
    else
      var e := es[|es| - 1];
      Atts(es[..|es| - 1], job, key) + if Matches(e, job, key) then [e.att] else []
  }

  function Power(es: seq<Entry>, job: bytes, key: bytes): int
  {
    if es == [] then 0
    else
      var e := es[|es| - 1];
      Power(es[..|es| - 1], job, key) + if Matches(e, job, key) then e.power else 0
  }

  lemma Snoc(es: seq<Entry>, e: Entry, job: bytes, key: bytes)
    ensures HasJob(es + [e], job) <==> HasJob(es, job) || e.job == job
    ensures HasKey(es + [e], job, key) <==> HasKey(es, job, key) || Matches(e, job, key)
    ensures HasJob(es, job) ==> First(es + [e], job) == First(es, job)
    ensures !HasJob(es, job) && e.job == job ==> First(es + [e], job) == e
    ensures Atts(es + [e], job, key) == Atts(es, job, key) + if Matches(e, job, key) then [e.att] else []
    ensures Power(es + [e], job, key) == Power(es, job, key) + if Matches(e, job, key) then e.power else 0
  {
    assert (es + [e])[..|es|] == es;
  }

  lemma {:induction false} KeyHasJob(es: seq<Entry>, job: bytes, key: bytes)
    requires HasKey(es, job, key)
    ensures HasJob(es, job)
  {
    if !Matches(es[|es| - 1], job, key) {
      KeyHasJob(es[..|es| - 1], job, key);
    }
  }

  // ---------------------------------------------------------------- the code's maps

  type Outputs = map<bytes, map<bytes, seq<ValidatorAttestation>>>
  type Powers = map<bytes, map<bytes, int64>>

  datatype Tally = Tally(outputs: Outputs, powers: Powers, results: map<bytes, Aggregated>)

  function Initial(e: Entry, totalVotes: nat, totalPower: int64): Aggregated
  {
    Aggregated(e.job, e.model, e.input, [], 0, totalVotes, 0, totalPower, [], false, 0)
  }

  ghost predicate JobsOf(es: seq<Entry>, jobs: set<bytes>)
  {
    forall job :: job in jobs <==> HasJob(es, job)
  }

  ghost predicate KeysOf(es: seq<Entry>, job: bytes, keys: set<bytes>)
  {
    forall key :: key in keys <==> HasKey(es, job, key)
  }

  ghost predicate RowOf(es: seq<Entry>, job: bytes, outputs: map<bytes, seq<ValidatorAttestation>>,
                        powers: map<bytes, int64>)
  {
    && outputs.Keys == powers.Keys
    && KeysOf(es, job, outputs.Keys)
    && (forall key :: key in outputs ==> outputs[key] == Atts(es, job, key))
    && (forall key :: key in powers ==> powers[key] == Wrap64(Power(es, job, key)))
  }

  ghost predicate RowsOf(es: seq<Entry>, outputs: Outputs, powers: Powers)
  {
    outputs.Keys == powers.Keys && forall job :: job in outputs ==> RowOf(es, job, outputs[job], powers[job])
  }

  ghost predicate ResultsOf(es: seq<Entry>, totalVotes: nat, totalPower: int64, results: map<bytes, Aggregated>)
  {
    forall job :: job in results ==> HasJob(es, job) && results[job] == Initial(First(es, job), totalVotes, totalPower)
  }

  /** The three maps hold what the entries add up to. */
  ghost predicate TallyOf(es: seq<Entry>, totalVotes: nat, totalPower: int64, t: Tally)
  {
    && t.outputs.Keys == t.powers.Keys == t.results.Keys
    && JobsOf(es, t.outputs.Keys)
    && RowsOf(es, t.outputs, t.powers)
    && ResultsOf(es, totalVotes, totalPower, t.results)
  }

  /** Rows of other jobs do not see a new entry. */
  lemma OtherRow(es: seq<Entry>, e: Entry, job: bytes, outputs: map<bytes, seq<ValidatorAttestation>>,
                 powers: map<bytes, int64>)
    requires RowOf(es, job, outputs, powers) && e.job != job
    ensures RowOf(es + [e], job, outputs, powers)
  {
    forall key
      ensures HasKey(es + [e], job, key) == HasKey(es, job, key)
      ensures Atts(es + [e], job, key) == Atts(es, job, key)
      ensures Power(es + [e], job, key) == Power(es, job, key)
    {
      Snoc(es, e, job, key);
    }
  }

  lemma {:induction false} AbsentRow(es: seq<Entry>, job: bytes, key: bytes)
    requires !HasKey(es, job, key)
    ensures Atts(es, job, key) == [] && Power(es, job, key) == 0
  {
    if es != [] {
      AbsentRow(es[..|es| - 1], job, key);
    }
  }

  lemma NoJobNoKey(es: seq<Entry>, job: bytes)
    requires !HasJob(es, job)
    ensures RowOf(es, job, map[], map[])
  {
    forall key
      ensures !HasKey(es, job, key)
    {
      if HasKey(es, job, key) {
        KeyHasJob(es, job, key);
      }
    }
  }

  /** The output the entry reports. */
  lemma NewInRow(es: seq<Entry>, e: Entry, outputs: map<bytes, seq<ValidatorAttestation>>, powers: map<bytes, int64>)
    requires RowOf(es, e.job, outputs, powers)
    ensures Atts(es + [e], e.job, e.key) == (if e.key in outputs then outputs[e.key] else []) + [e.att]
    ensures Wrap64(Power(es + [e], e.job, e.key))
         == Wrap64((if e.key in powers then powers[e.key] else 0) + e.power)
  {
    Snoc(es, e, e.job, e.key);
    if e.key !in outputs {
      AbsentRow(es, e.job, e.key);
    }
    WrapAdd(Power(es, e.job, e.key), e.power);
  }

  lemma RowKeeps(es: seq<Entry>, e: Entry, outputs: map<bytes, seq<ValidatorAttestation>>, powers: map<bytes, int64>,
                 outputs': map<bytes, seq<ValidatorAttestation>>, powers': map<bytes, int64>)
    requires RowOf(es, e.job, outputs, powers)
    requires outputs' == outputs[e.key := (if e.key in outputs then outputs[e.key] else []) + [e.att]]
    requires powers' == powers[e.key := Wrap64((if e.key in powers then powers[e.key] else 0) + e.power)]
    ensures RowOf(es + [e], e.job, outputs', powers')
  {
    forall key
      ensures key in outputs'.Keys <==> HasKey(es + [e], e.job, key)
    {
      Snoc(es, e, e.job, key);
    }
    forall key | key in outputs'
      ensures outputs'[key] == Atts(es + [e], e.job, key)
      ensures powers'[key] == Wrap64(Power(es + [e], e.job, key))
    {
      if key == e.key {
        NewInRow(es, e, outputs, powers);
      } else {
        Snoc(es, e, e.job, key);
      }
    }
  }

  /** Add one entry to the row of its job. */
  method AddToRow(ghost es: seq<Entry>, e: Entry, outputs: map<bytes, seq<ValidatorAttestation>>,
                  powers: map<bytes, int64>)
    returns (outputs': map<bytes, seq<ValidatorAttestation>>, powers': map<bytes, int64>)
    requires RowOf(es, e.job, outputs, powers)
    ensures RowOf(es + [e], e.job, outputs', powers')
  {
    var atts := if e.key in outputs then outputs[e.key] else [];
    var power: int64 := if e.key in powers then powers[e.key] else 0;
    outputs' := outputs[e.key := atts + [e.att]];
    powers' := powers[e.key := Wrap64(power + e.power)];
    RowKeeps(es, e, outputs, powers, outputs', powers');
  }

  lemma JobsKeep(es: seq<Entry>, e: Entry, jobs: set<bytes>)
    requires JobsOf(es, jobs)
    ensures JobsOf(es + [e], jobs + {e.job})
  {
    forall job
      ensures job in jobs + {e.job} <==> HasJob(es + [e], job)
    {
      Snoc(es, e, job, []);
    }
  }

  /** The row of the entry's job is given, the others do not change. */
  lemma RowsKeep(es: seq<Entry>, e: Entry, rows: Outputs, powers: Powers,
                 row: map<bytes, seq<ValidatorAttestation>>, power: map<bytes, int64>)
    requires RowsOf(es, rows, powers) && RowOf(es + [e], e.job, row, power)
    ensures RowsOf(es + [e], rows[e.job := row], powers[e.job := power])
  {
    forall job | job in rows && job != e.job
      ensures RowOf(es + [e], job, rows[job], powers[job])
    {
      OtherRow(es, e, job, rows[job], powers[job]);
    }
  }

  lemma ResultsKeep(es: seq<Entry>, e: Entry, totalVotes: nat, totalPower: int64,
                    results: map<bytes, Aggregated>, results': map<bytes, Aggregated>)
    requires ResultsOf(es, totalVotes, totalPower, results) && JobsOf(es, results.Keys)
    requires results' == if e.job in results then results else results[e.job := Initial(e, totalVotes, totalPower)]
    ensures ResultsOf(es + [e], totalVotes, totalPower, results')
  {
    forall job | job in results'
      ensures HasJob(es + [e], job) && results'[job] == Initial(First(es + [e], job), totalVotes, totalPower)
    {
      Snoc(es, e, job, []);
    }
  }

  lemma RecordKeeps(es: seq<Entry>, e: Entry, totalVotes: nat, totalPower: int64, t: Tally,
                    outputs: map<bytes, seq<ValidatorAttestation>>, powers: map<bytes, int64>,
                    results: map<bytes, Aggregated>)
    requires TallyOf(es, totalVotes, totalPower, t) && RowOf(es + [e], e.job, outputs, powers)
    requires results == if e.job in t.results then t.results else t.results[e.job := Initial(e, totalVotes, totalPower)]
    ensures TallyOf(es + [e], totalVotes, totalPower,
                    Tally(t.outputs[e.job := outputs], t.powers[e.job := powers], results))
  {
    JobsKeep(es, e, t.outputs.Keys);
    assert t.outputs[e.job := outputs].Keys == t.outputs.Keys + {e.job};
    ResultsKeep(es, e, totalVotes, totalPower, t.results, results);
    RowsKeep(es, e, t.outputs, t.powers, outputs, powers);
  }

  /** The inner loop body for one successful verification. */
  method Record(ghost es: seq<Entry>, e: Entry, totalVotes: nat, totalPower: int64, t: Tally) returns (t': Tally)
    requires TallyOf(es, totalVotes, totalPower, t)
    ensures TallyOf(es + [e], totalVotes, totalPower, t')
  {
    var outputs := if e.job in t.outputs then t.outputs[e.job] else map[];
    var powers := if e.job in t.powers then t.powers[e.job] else map[];
    if e.job !in t.outputs {
      NoJobNoKey(es, e.job);
    }
    outputs, powers := AddToRow(es, e, outputs, powers);
    var results := if e.job in t.results then t.results else t.results[e.job := Initial(e, totalVotes, totalPower)];
    t' := Tally(t.outputs[e.job := outputs], t.powers[e.job := powers], results);
    RecordKeeps(es, e, totalVotes, totalPower, t, outputs, powers, results);
  }

  // ---------------------------------------------------------------- the outcome

  predicate Reaches(es: seq<Entry>, required: int64, job: bytes, key: bytes)
  {
    HasKey(es, job, key) && Wrap64(Power(es, job, key)) >= required
  }

  function Unhexed(key: bytes): bytes
  {
    match Unhex(key)
    case Some(b) => b
    case None => []
  }

  function Won(a: Aggregated, es: seq<Entry>, key: bytes, blockTime: int): Aggregated
  {
    a.(outputHash := Unhexed(key), validatorCount := |Atts(es, a.jobID, key)|,
       agreementPower := Wrap64(Power(es, a.jobID, key)), attestations := Atts(es, a.jobID, key),
       hasConsensus := true, consensusReached := blockTime)
  }

  /** The parameters the totals fix: None when there is no power to speak of. */
  datatype Setup = NoPower | Setup(total: int64, fallback: bool, required: int64)

  function TotalPower(votes: seq<Vote>): int
  {
    if votes == [] then 0 else TotalPower(votes[..|votes| - 1]) + votes[|votes| - 1].power
  }

  function Required(total: int64, threshold: int64): int64
  {
    TruncDiv(Wrap64(total * threshold), 100) + 1
  }

  function SetupOf(votes: seq<Vote>, threshold: int64, allowSimulated: bool): Setup
  {
    var total := Wrap64(TotalPower(votes));
    if total == 0 && votes != [] then
      if allowSimulated then Setup(Wrap64(|votes|), true, Required(Wrap64(|votes|), threshold)) else NoPower
    else Setup(total, false, Required(total, threshold))
  }

  /** What a job's result may be: some output that reaches the required power, if any does. */
  ghost predicate JobOutcome(es: seq<Entry>, totalVotes: nat, s: Setup, blockTime: int, job: bytes, a: Aggregated)
    requires s.Setup? && HasJob(es, job)
  {
    var init := Initial(First(es, job), totalVotes, s.total);
    if exists key :: Reaches(es, s.required, job, key) then
      exists key :: Reaches(es, s.required, job, key) && a == Won(init, es, key, blockTime)
    else a == init
  }

  /** The results any iteration order may give. */
  ghost predicate IsAggregate(votes: seq<Vote>, threshold: int64, allowSimulated: bool, blockTime: int,
                              results: map<bytes, Aggregated>)
  {
    var s := SetupOf(votes, threshold, allowSimulated);
    if s.NoPower? then results == map[]
    else
      var es := Entries(votes, s.fallback);
      && JobsOf(es, results.Keys)
      && forall job :: job in results ==> HasJob(es, job) && JobOutcome(es, |votes|, s, blockTime, job, results[job])
  }

  /** The loop over the outputs of one job, which stops at the first that reaches the power. */
  method DecideJob(ghost es: seq<Entry>, totalVotes: nat, s: Setup, blockTime: int, job: bytes,
                   outputs: map<bytes, seq<ValidatorAttestation>>, powers: map<bytes, int64>, init: Aggregated)
    returns (a: Aggregated)
    requires s.Setup? && HasJob(es, job) && RowOf(es, job, outputs, powers)
    requires First(es, job).job == job && init == Initial(First(es, job), totalVotes, s.total)
    ensures JobOutcome(es, totalVotes, s, blockTime, job, a)
  {
    var left := outputs.Keys;
    while left != {}
      invariant left <= outputs.Keys
      invariant forall key :: key in outputs.Keys - left ==> !Reaches(es, s.required, job, key)
      decreases left
    {
      var key :| key in left;
      left := left - {key};
      if powers[key] >= s.required {
        assert Reaches(es, s.required, job, key);
        return init.(outputHash := Unhexed(key), validatorCount := |outputs[key]|, agreementPower := powers[key],
                      attestations := outputs[key], hasConsensus := true, consensusReached := blockTime);
      }
    }
    return init;
  }

  lemma {:induction false} FirstJob(es: seq<Entry>, job: bytes)
    requires HasJob(es, job)
    ensures First(es, job).job == job
  {
    if HasJob(es[..|es| - 1], job) {
      FirstJob(es[..|es| - 1], job);
    }
  }

  method TallyExtension(ghost es: seq<Entry>, ext: VoteExtension, power: int64, totalVotes: nat, totalPower: int64,
                        t0: Tally)
    returns (t: Tally)
    requires TallyOf(es, totalVotes, totalPower, t0)
    ensures TallyOf(es + EntriesIn(ext, ext.verifications, power), totalVotes, totalPower, t)
  {
    t := t0;
    var vs := ext.verifications;
    ghost var sofar := es;
    for i := 0 to |vs|
      invariant sofar == es + EntriesIn(ext, vs[..i], power)
      invariant TallyOf(sofar, totalVotes, totalPower, t)
    {
      assert vs[..i + 1][..i] == vs[..i];
      if !vs[i].success {
        continue;
      }
      var e := EntryOf(ext, vs[i], power);
      t := Record(sofar, e, totalVotes, totalPower, t);
      ConcatAssoc(es, EntriesIn(ext, vs[..i], power), [e]);
      sofar := sofar + [e];
    }
    assert vs[..|vs|] == vs;
  }

  method TallyVotes(votes: seq<Vote>, fallback: bool, totalPower: int64) returns (t: Tally)
    ensures TallyOf(Entries(votes, fallback), |votes|, totalPower, t)
  {
    t := Tally(map[], map[], map[]);
    for i := 0 to |votes|
      invariant TallyOf(Entries(votes[..i], fallback), |votes|, totalPower, t)
    {
      ghost var es := Entries(votes[..i], fallback);
      assert votes[..i + 1][..i] == votes[..i];
      match votes[i].ext {
        case None =>
          assert es + VoteEntries(votes[i], fallback) == es;
        case Some(ext) =>
          t := TallyExtension(es, ext, Weight(votes[i], fallback), |votes|, totalPower, t);
      }
    }
    assert votes[..|votes|] == votes;
  }

  method DecideTallied(ghost es: seq<Entry>, totalVotes: nat, s: Setup, blockTime: int, t: Tally)
    returns (results: map<bytes, Aggregated>)
    requires s.Setup? && TallyOf(es, totalVotes, s.total, t)
    ensures JobsOf(es, results.Keys)
    ensures forall job :: job in results ==>
      HasJob(es, job) && JobOutcome(es, totalVotes, s, blockTime, job, results[job])
  {
    results := t.results;
    var left := t.outputs.Keys;
    while left != {}
      invariant left <= t.outputs.Keys == results.Keys
      invariant forall job :: job in left ==> results[job] == t.results[job]
      invariant forall job :: job in results.Keys - left ==>
                  HasJob(es, job) && JobOutcome(es, totalVotes, s, blockTime, job, results[job])
      decreases left
    {
      var job :| job in left;
      left := left - {job};
      FirstJob(es, job);
      var a := DecideJob(es, totalVotes, s, blockTime, job, t.outputs[job], t.powers[job], results[job]);
      results := results[job := a];
    }
  }

  /** Tally, then the loop over the jobs in some order. */
  method DecideAll(votes: seq<Vote>, s: Setup, blockTime: int) returns (results: map<bytes, Aggregated>)
    requires s.Setup?
    ensures JobsOf(Entries(votes, s.fallback), results.Keys)
    ensures forall job :: job in results ==>
      && HasJob(Entries(votes, s.fallback), job)
      && JobOutcome(Entries(votes, s.fallback), |votes|, s, blockTime, job, results[job])
  {
    var t := TallyVotes(votes, s.fallback, s.total);
    results := DecideTallied(Entries(votes, s.fallback), |votes|, s, blockTime, t);
  }

  method AggregateVoteExtensions(votes: seq<Vote>, threshold: int64, allowSimulated: bool, blockTime: int)
    returns (results: map<bytes, Aggregated>)
    ensures IsAggregate(votes, threshold, allowSimulated, blockTime, results)
  {
    var totalPower: int64 := 0;
    for i := 0 to |votes|
      invariant totalPower == Wrap64(TotalPower(votes[..i]))
    {
      assert votes[..i + 1][..i] == votes[..i];
      WrapAdd(TotalPower(votes[..i]), votes[i].power);
      totalPower := Wrap64(totalPower + votes[i].power);
    }
    assert votes[..|votes|] == votes;
    var fallback := false;
    if totalPower == 0 && |votes| > 0 {
      if allowSimulated {
        totalPower := Wrap64(|votes|);
        fallback := true;
      } else {
        return map[];
      }
    }
    var s := Setup(totalPower, fallback, Required(totalPower, threshold));
    results := DecideAll(votes, s, blockTime);
  }
}
