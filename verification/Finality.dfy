/**
 validateComputationFinality of app/consensus_finality.go: the injected transactions of a proposal
 against the consensus results recomputed from the vote extensions. Both are Go maps, iterated in
 an unspecified order.
 */
module Finality {
  import opened Encoding
  import opened VoteTypes
  import opened Evidence

  /** The keeper's AggregatedResult, without the fields the check does not read. */
  datatype JobResult = JobResult(
    jobID: bytes,
    outputHash: bytes,
    totalVotes: int,
    totalPower: int64,
    agreementCount: int,
    agreementPower: int64,
    hasConsensus: bool)

  /** A nil entry is None. */
  type Results = map<bytes, Option<JobResult>>

  predicate KeyedByJob(results: Results)
  {
    forall k :: k in results && results[k].Some? ==> results[k].value.jobID == k
  }

  predicate HasConsensus(results: Results, job: bytes)
  {
    job in results && results[job].Some? && results[job].value.hasConsensus
  }

  predicate MeetsThreshold(r: JobResult, threshold: int64)
  {
    r.totalPower > 0 && r.agreementPower >= RequiredPower(r.totalPower, threshold)
  }

  predicate Agrees(tx: InjectedTx, r: JobResult)
  {
    && tx.outputHash == r.outputHash
    && tx.totalPower == r.totalPower && tx.agreementPower == r.agreementPower
    && tx.validatorCount == r.agreementCount && tx.totalVotes == r.totalVotes
  }

  /** Some injected transaction carries the job's result exactly. */
  predicate Reflected(codec: TxCodec, txs: seq<bytes>, job: bytes, r: JobResult)
  {
    exists i :: 0 <= i < |txs| && ParsedAt(codec, txs, i) && JobAt(codec, txs, i) == job
                && Agrees(Parse(codec, txs[i]).value, r)
  }

  predicate AllParse(codec: TxCodec, txs: seq<bytes>)
  {
    forall i :: 0 <= i < |txs| && IsInjected(codec, txs[i]) ==> Parse(codec, txs[i]).Some?
  }

  predicate DistinctJobs(codec: TxCodec, txs: seq<bytes>)
  {
    forall i, j :: 0 <= i < j < |txs| && ParsedAt(codec, txs, i) && ParsedAt(codec, txs, j) ==>
      JobAt(codec, txs, i) != JobAt(codec, txs, j)
  }

  predicate AllMeet(results: Results, threshold: int64)
  {
    forall job :: job in results && HasConsensus(results, job) ==> MeetsThreshold(results[job].value, threshold)
  }

  predicate AllReflected(codec: TxCodec, results: Results, txs: seq<bytes>)
  {
    forall job :: job in results && HasConsensus(results, job) ==> Reflected(codec, txs, job, results[job].value)
  }

  predicate NoneExtra(codec: TxCodec, results: Results, txs: seq<bytes>)
  {
    forall i :: 0 <= i < |txs| && ParsedAt(codec, txs, i) ==> HasConsensus(results, JobAt(codec, txs, i))
  }

  /** The injected transactions are exactly the consensus results: every result meets the threshold
      and is carried by a transaction that agrees with it, every injected transaction parses and
      carries a result, and no job is carried twice. */
  predicate ExactMatch(codec: TxCodec, results: Results, txs: seq<bytes>, threshold: int64)
  {
    && AllMeet(results, threshold)
    && AllParse(codec, txs)
    && DistinctJobs(codec, txs)
    && AllReflected(codec, results, txs)
    && NoneExtra(codec, results, txs)
  }

  // ---------------------------------------------------------------- the four loops

  /** The consensus results among the given keys. */
  ghost predicate ConsensusOf(results: Results, keys: set<bytes>, jobs: map<bytes, JobResult>)
  {
    && (forall k :: k in keys && HasConsensus(results, k) ==> k in jobs && jobs[k] == results[k].value)
    && (forall k :: k in jobs ==> k in keys && HasConsensus(results, k))
  }

  /** The consensus results among the given keys, filed under their JobIDs. Of several with one JobID
      any may remain. */
  ghost predicate Filed(results: Results, keys: set<bytes>, jobs: map<bytes, JobResult>)
  {
    && (forall k :: k in keys && HasConsensus(results, k) ==> results[k].value.jobID in jobs)
    && (forall job :: job in jobs ==> jobs[job].jobID == job)
    && (forall job :: job in jobs ==>
          exists k :: k in keys && HasConsensus(results, k) && results[k].value == jobs[job])
  }

  lemma FileOne(results: Results, keys: set<bytes>, jobs: map<bytes, JobResult>, k: bytes)
    requires Filed(results, keys, jobs)
    ensures !HasConsensus(results, k) ==> Filed(results, keys + {k}, jobs)
    ensures HasConsensus(results, k) ==> Filed(results, keys + {k}, jobs[results[k].value.jobID := results[k].value])
  {
    forall job | job in jobs
      ensures exists j :: j in keys + {k} && HasConsensus(results, j) && results[j].value == jobs[job]
    {
      var j :| j in keys && HasConsensus(results, j) && results[j].value == jobs[job];
      assert j in keys + {k};
    }
    assert k in keys + {k};
  }

  method CollectConsensus(results: Results, threshold: int64) returns (ok: bool, jobs: map<bytes, JobResult>)
    ensures ok <==> AllMeet(results, threshold)
    ensures ok ==> Filed(results, results.Keys, jobs)
    ensures ok ==> forall job :: job in jobs ==> jobs[job].hasConsensus && MeetsThreshold(jobs[job], threshold)
  {
    jobs := map[];
    var left := results.Keys;
    while left != {}
      invariant left <= results.Keys
      invariant Filed(results, results.Keys - left, jobs)
      invariant forall job :: job in jobs ==> jobs[job].hasConsensus && MeetsThreshold(jobs[job], threshold)
      invariant forall job :: job in results.Keys - left && HasConsensus(results, job) ==>
                  MeetsThreshold(results[job].value, threshold)
      decreases left
    {
      var k :| k in left;
      FileOne(results, results.Keys - left, jobs, k);
      assert results.Keys - (left - {k}) == (results.Keys - left) + {k};
      left := left - {k};
      var res := results[k];
      if res.None? || !res.value.hasConsensus {
        continue;
      }
      assert HasConsensus(results, k);
      var required := RequiredPower(res.value.totalPower, threshold);
      if res.value.totalPower <= 0 || res.value.agreementPower < required {
        return false, jobs;
      }
      jobs := jobs[res.value.jobID := res.value];
    }
    return true, jobs;
  }

  /** The transaction for a job among the first n, if any. */
  ghost predicate Carries(codec: TxCodec, txs: seq<bytes>, n: nat, job: bytes)
    requires n <= |txs|
  {
    exists i :: 0 <= i < n && ParsedAt(codec, txs, i) && JobAt(codec, txs, i) == job
  }

  ghost predicate Indexed(codec: TxCodec, txs: seq<bytes>, n: nat, injected: map<bytes, InjectedTx>)
    requires n <= |txs|
  {
    forall i :: 0 <= i < n && ParsedAt(codec, txs, i) ==>
      JobAt(codec, txs, i) in injected && injected[JobAt(codec, txs, i)] == Parse(codec, txs[i]).value
  }

  ghost predicate NothingElse(codec: TxCodec, txs: seq<bytes>, n: nat, injected: map<bytes, InjectedTx>)
    requires n <= |txs|
  {
    forall job :: job in injected ==> Carries(codec, txs, n, job)
  }

  ghost predicate ParseTo(codec: TxCodec, txs: seq<bytes>, n: nat)
    requires n <= |txs|
  {
    forall i :: 0 <= i < n && IsInjected(codec, txs[i]) ==> ParsedAt(codec, txs, i)
  }

  ghost predicate DistinctTo(codec: TxCodec, txs: seq<bytes>, n: nat)
    requires n <= |txs|
  {
    forall i, j :: 0 <= i < j < n && ParsedAt(codec, txs, i) && ParsedAt(codec, txs, j) ==>
      JobAt(codec, txs, i) != JobAt(codec, txs, j)
  }

  /** The first n transactions all parse, carry distinct jobs, and are indexed by job. */
  ghost predicate InjectedOf(codec: TxCodec, txs: seq<bytes>, n: nat, injected: map<bytes, InjectedTx>)
    requires n <= |txs|
  {
    && ParseTo(codec, txs, n) && DistinctTo(codec, txs, n)
    && Indexed(codec, txs, n, injected) && NothingElse(codec, txs, n, injected)
  }

  lemma CarriesMore(codec: TxCodec, txs: seq<bytes>, n: nat, injected: map<bytes, InjectedTx>)
    requires n < |txs| && NothingElse(codec, txs, n, injected)
    ensures NothingElse(codec, txs, n + 1, injected)
  {
    forall job | job in injected
      ensures Carries(codec, txs, n + 1, job)
    {
      var i :| 0 <= i < n && ParsedAt(codec, txs, i) && JobAt(codec, txs, i) == job;
    }
  }

  lemma SkipKeeps(codec: TxCodec, txs: seq<bytes>, n: nat, injected: map<bytes, InjectedTx>)
    requires n < |txs| && InjectedOf(codec, txs, n, injected) && !IsInjected(codec, txs[n])
    ensures InjectedOf(codec, txs, n + 1, injected)
  {
    CarriesMore(codec, txs, n, injected);
  }

  lemma NewIsDistinct(codec: TxCodec, txs: seq<bytes>, n: nat, injected: map<bytes, InjectedTx>)
    requires n < |txs| && Indexed(codec, txs, n, injected) && DistinctTo(codec, txs, n)
    requires ParsedAt(codec, txs, n) && JobAt(codec, txs, n) !in injected
    ensures DistinctTo(codec, txs, n + 1)
  {
  }

  lemma InsertKeeps(codec: TxCodec, txs: seq<bytes>, n: nat, injected: map<bytes, InjectedTx>)
    requires n < |txs| && InjectedOf(codec, txs, n, injected)
    requires ParsedAt(codec, txs, n) && JobAt(codec, txs, n) !in injected
    ensures InjectedOf(codec, txs, n + 1, injected[JobAt(codec, txs, n) := Parse(codec, txs[n]).value])
  {
    CarriesMore(codec, txs, n, injected);
    assert Carries(codec, txs, n + 1, JobAt(codec, txs, n));
    NewIsDistinct(codec, txs, n, injected);
  }

  method CollectInjected(codec: TxCodec, txs: seq<bytes>) returns (ok: bool, injected: map<bytes, InjectedTx>)
    ensures ok <==> AllParse(codec, txs) && DistinctJobs(codec, txs)
    ensures ok ==> InjectedOf(codec, txs, |txs|, injected)
  {
    injected := map[];
    for i := 0 to |txs|
      invariant InjectedOf(codec, txs, i, injected)
    {
      if !IsInjected(codec, txs[i]) {
        SkipKeeps(codec, txs, i, injected);
        continue;
      }
      var parsed := Parse(codec, txs[i]);
      if parsed.None? {
        return false, injected;
      }
      var tx := parsed.value;
      assert ParsedAt(codec, txs, i) && JobAt(codec, txs, i) == tx.jobID;
      if tx.jobID in injected {
        assert Carries(codec, txs, i, tx.jobID);
        return false, injected;
      }
      InsertKeeps(codec, txs, i, injected);
      injected := injected[tx.jobID := tx];
    }
    return true, injected;
  }

  /** Every result is carried by a transaction that agrees with it. */
  predicate AllAgree(jobs: map<bytes, JobResult>, injected: map<bytes, InjectedTx>)
  {
    forall job :: job in jobs ==> job in injected && Agrees(injected[job], jobs[job])
  }

  /** Every transaction carries a result with the same output. */
  predicate AllBacked(jobs: map<bytes, JobResult>, injected: map<bytes, InjectedTx>)
  {
    forall job :: job in injected ==> job in jobs && injected[job].outputHash == jobs[job].outputHash
  }

  /** Every consensus result has an injected transaction that agrees with it and meets the threshold. */
  method CheckResults(jobs: map<bytes, JobResult>, injected: map<bytes, InjectedTx>, threshold: int64)
    returns (ok: bool)
    requires forall job :: job in jobs ==> MeetsThreshold(jobs[job], threshold)
    ensures ok <==> AllAgree(jobs, injected)
  {
    var left := jobs.Keys;
    while left != {}
      invariant left <= jobs.Keys
      invariant forall job :: job in jobs.Keys - left ==> job in injected && Agrees(injected[job], jobs[job])
      decreases left
    {
      var job :| job in left;
      left := left - {job};
      var res := jobs[job];
      if job !in injected {
        return false;
      }
      var inj := injected[job];
      if inj.outputHash != res.outputHash {
        return false;
      }
      var required := RequiredPower(inj.totalPower, threshold);
      if inj.totalPower <= 0 || inj.agreementPower < required {
        return false;
      }
      if inj.totalPower != res.totalPower || inj.agreementPower != res.agreementPower {
        return false;
      }
      if inj.validatorCount != res.agreementCount || inj.totalVotes != res.totalVotes {
        return false;
      }
    }
    return true;
  }

  /** Every injected transaction carries a consensus result with the same output. */
  method CheckInjected(jobs: map<bytes, JobResult>, injected: map<bytes, InjectedTx>) returns (ok: bool)
    requires forall job :: job in jobs ==> jobs[job].hasConsensus
    ensures ok <==> AllBacked(jobs, injected)
  {
    var left := injected.Keys;
    while left != {}
      invariant left <= injected.Keys
      invariant forall job :: job in injected.Keys - left ==>
                  job in jobs && injected[job].outputHash == jobs[job].outputHash
      decreases left
    {
      var job :| job in left;
      left := left - {job};
      if job !in jobs || !jobs[job].hasConsensus {
        return false;
      }
      if injected[job].outputHash != jobs[job].outputHash {
        return false;
      }
    }
    return true;
  }

  function ByJob(jobs: map<bytes, JobResult>): Results
  {
    map job | job in jobs :: Some(jobs[job])
  }

  lemma ReflectedIff(codec: TxCodec, results: Results, txs: seq<bytes>, jobs: map<bytes, JobResult>,
                     injected: map<bytes, InjectedTx>)
    requires ConsensusOf(results, results.Keys, jobs) && InjectedOf(codec, txs, |txs|, injected)
    ensures AllAgree(jobs, injected)
       <==> AllReflected(codec, results, txs)
  {
    forall job | job in jobs
      ensures Reflected(codec, txs, job, jobs[job]) <==> job in injected && Agrees(injected[job], jobs[job])
    {
      if job in injected && Agrees(injected[job], jobs[job]) {
        var i :| 0 <= i < |txs| && ParsedAt(codec, txs, i) && JobAt(codec, txs, i) == job;
      }
    }
  }

  lemma ExtraIff(codec: TxCodec, results: Results, txs: seq<bytes>, jobs: map<bytes, JobResult>,
                 injected: map<bytes, InjectedTx>)
    requires ConsensusOf(results, results.Keys, jobs) && InjectedOf(codec, txs, |txs|, injected)
    requires AllAgree(jobs, injected)
    ensures AllBacked(jobs, injected)
       <==> NoneExtra(codec, results, txs)
  {
    if NoneExtra(codec, results, txs) {
      forall job | job in injected
        ensures job in jobs && injected[job].outputHash == jobs[job].outputHash
      {
        var i :| 0 <= i < |txs| && ParsedAt(codec, txs, i) && JobAt(codec, txs, i) == job;
      }
    }
    if AllBacked(jobs, injected) {
      forall i | 0 <= i < |txs| && ParsedAt(codec, txs, i)
        ensures HasConsensus(results, JobAt(codec, txs, i))
      {
        assert JobAt(codec, txs, i) in injected;
      }
    }
  }

  /** The last three loops: the transactions against the results as filed. */
  method MatchFiled(codec: TxCodec, jobs: map<bytes, JobResult>, txs: seq<bytes>, threshold: int64) returns (ok: bool)
    requires forall job :: job in jobs ==> jobs[job].hasConsensus && MeetsThreshold(jobs[job], threshold)
    ensures ok <==> ExactMatch(codec, ByJob(jobs), txs, threshold)
  {
    assert AllMeet(ByJob(jobs), threshold);
    var parsed, injected := CollectInjected(codec, txs);
    if !parsed {
      return false;
    }
    var reflected := CheckResults(jobs, injected, threshold);
    ReflectedIff(codec, ByJob(jobs), txs, jobs, injected);
    if !reflected {
      return false;
    }
    ok := CheckInjected(jobs, injected);
    ExtraIff(codec, ByJob(jobs), txs, jobs, injected);
  }

  lemma KeyedClauses(codec: TxCodec, results: Results, txs: seq<bytes>, jobs: map<bytes, JobResult>, threshold: int64)
    requires ConsensusOf(results, results.Keys, jobs) && forall job :: job in jobs ==> jobs[job].hasConsensus
    ensures AllMeet(results, threshold) <==> AllMeet(ByJob(jobs), threshold)
    ensures AllReflected(codec, results, txs) <==> AllReflected(codec, ByJob(jobs), txs)
    ensures NoneExtra(codec, results, txs) <==> NoneExtra(codec, ByJob(jobs), txs)
  {
    forall job: bytes
      ensures HasConsensus(results, job) <==> HasConsensus(ByJob(jobs), job)
      ensures HasConsensus(results, job) ==> results[job] == ByJob(jobs)[job]
    {
    }
  }

  /** Filing results that are keyed by JobID changes nothing. */
  lemma KeyedMatch(codec: TxCodec, results: Results, txs: seq<bytes>, jobs: map<bytes, JobResult>, threshold: int64)
    requires KeyedByJob(results) && Filed(results, results.Keys, jobs)
    ensures ExactMatch(codec, results, txs, threshold) <==> ExactMatch(codec, ByJob(jobs), txs, threshold)
  {
    assert ConsensusOf(results, results.Keys, jobs);
    KeyedClauses(codec, results, txs, jobs, threshold);
  }

  /** The check returns nil exactly when all consensus results meet the threshold and the transactions
      match them as filed by JobID. With results keyed by their own JobID, as the keeper keys them,
      this leaves no choice: nil exactly on an exact match, whatever the iteration orders. */
  method ValidateComputationFinality(codec: TxCodec, results: Results, txs: seq<bytes>, threshold: int64)
    returns (ok: bool, ghost jobs: map<bytes, JobResult>)
    ensures AllMeet(results, threshold) ==> Filed(results, results.Keys, jobs)
    ensures ok <==> AllMeet(results, threshold) && ExactMatch(codec, ByJob(jobs), txs, threshold)
    ensures KeyedByJob(results) ==> (ok <==> ExactMatch(codec, results, txs, threshold))
  {
    var good, consensusJobs := CollectConsensus(results, threshold);
    jobs := consensusJobs;
    if !good {
      return false, jobs;
    }
    ok := MatchFiled(codec, consensusJobs, txs, threshold);
    if KeyedByJob(results) {
      KeyedMatch(codec, results, txs, jobs, threshold);
    }
  }

  /** After an exact match the injected transactions and the consensus jobs correspond one to one. */
  lemma {:induction false} MatchIsBijection(codec: TxCodec, results: Results, txs: seq<bytes>, threshold: int64)
    requires ExactMatch(codec, results, txs, threshold)
    ensures forall job :: (exists i :: 0 <= i < |txs| && ParsedAt(codec, txs, i) && JobAt(codec, txs, i) == job)
                     <==> HasConsensus(results, job)
    ensures forall i :: 0 <= i < |txs| && IsInjected(codec, txs[i]) ==>
              && ParsedAt(codec, txs, i)
              && HasConsensus(results, JobAt(codec, txs, i))
              && Agrees(Parse(codec, txs[i]).value, results[JobAt(codec, txs, i)].value)
              && MeetsThreshold(results[JobAt(codec, txs, i)].value, threshold)
  {
    forall i | 0 <= i < |txs| && IsInjected(codec, txs[i])
      ensures && ParsedAt(codec, txs, i)
              && HasConsensus(results, JobAt(codec, txs, i))
              && Agrees(Parse(codec, txs[i]).value, results[JobAt(codec, txs, i)].value)
    {
      assert ParsedAt(codec, txs, i);
      var job := JobAt(codec, txs, i);
      assert Reflected(codec, txs, job, results[job].value);
      var k :| 0 <= k < |txs| && ParsedAt(codec, txs, k) && JobAt(codec, txs, k) == job
               && Agrees(Parse(codec, txs[k]).value, results[job].value);
      assert k == i;
    }
    forall job | HasConsensus(results, job)
      ensures exists i :: 0 <= i < |txs| && ParsedAt(codec, txs, i) && JobAt(codec, txs, i) == job
    {
      assert Reflected(codec, txs, job, results[job].value);
    }
  }

  /** The transaction says of its job exactly what the result says. */
  predicate SaysSame(tx: InjectedTx, r: JobResult)
  {
    && tx.outputHash == r.outputHash && tx.validatorCount == r.agreementCount && tx.totalVotes == r.totalVotes
    && tx.agreementPower == r.agreementPower && tx.totalPower == r.totalPower
  }

  /** The match in plain terms: every injected transaction makes a claim, no two for one job; a job is claimed
      exactly when it has a consensus result, and the claim says the same; and every consensus result has
      positive power and a quorum of it. */
  ghost predicate PlainMatch(codec: TxCodec, results: Results, txs: seq<bytes>, threshold: int64)
  {
    && (forall i: nat :: i < |txs| && IsInjected(codec, txs[i]) ==> exists tx :: ClaimAt(codec, txs, i, tx))
    && (forall i: nat, j: nat, tx, ty ::
          ClaimAt(codec, txs, i, tx) && ClaimAt(codec, txs, j, ty) && tx.jobID == ty.jobID ==> i == j)
    && (forall i: nat, tx :: ClaimAt(codec, txs, i, tx) ==>
          && tx.jobID in results && results[tx.jobID].Some? && results[tx.jobID].value.hasConsensus
          && SaysSame(tx, results[tx.jobID].value))
    && (forall job :: job in results && results[job].Some? && results[job].value.hasConsensus ==>
          && (exists i: nat, tx :: ClaimAt(codec, txs, i, tx) && tx.jobID == job)
          && results[job].value.totalPower > 0
          && results[job].value.agreementPower >= RequiredPower(results[job].value.totalPower, threshold))
  }

  lemma ClaimIsParsed(codec: TxCodec, txs: seq<bytes>, i: nat, tx: InjectedTx)
    ensures ClaimAt(codec, txs, i, tx) <==> ParsedAt(codec, txs, i) && Parse(codec, txs[i]).value == tx
  {
    if i < |txs| {
      ParsesIffClaims(codec, txs[i], tx);
    }
  }

  lemma ExactIsPlain(codec: TxCodec, results: Results, txs: seq<bytes>, threshold: int64)
    requires ExactMatch(codec, results, txs, threshold)
    requires forall i: nat, tx ::
      ClaimAt(codec, txs, i, tx) <==> ParsedAt(codec, txs, i) && Parse(codec, txs[i]).value == tx
    ensures PlainMatch(codec, results, txs, threshold)
  {
    MatchIsBijection(codec, results, txs, threshold);
    forall i: nat | i < |txs| && IsInjected(codec, txs[i])
      ensures exists tx :: ClaimAt(codec, txs, i, tx)
    {
      assert ClaimAt(codec, txs, i, Parse(codec, txs[i]).value);
    }
    forall i: nat, j: nat, tx, ty | ClaimAt(codec, txs, i, tx) && ClaimAt(codec, txs, j, ty) && tx.jobID == ty.jobID
      ensures i == j
    {
      assert JobAt(codec, txs, i) == JobAt(codec, txs, j);
    }
    forall job | job in results && results[job].Some? && results[job].value.hasConsensus
      ensures exists i: nat, tx :: ClaimAt(codec, txs, i, tx) && tx.jobID == job
      ensures MeetsThreshold(results[job].value, threshold)
    {
      assert HasConsensus(results, job);
      var i :| 0 <= i < |txs| && ParsedAt(codec, txs, i) && JobAt(codec, txs, i) == job;
      assert ClaimAt(codec, txs, i, Parse(codec, txs[i]).value);
    }
  }

  lemma PlainIsExact(codec: TxCodec, results: Results, txs: seq<bytes>, threshold: int64)
    requires PlainMatch(codec, results, txs, threshold)
    requires forall i: nat, tx ::
      ClaimAt(codec, txs, i, tx) <==> ParsedAt(codec, txs, i) && Parse(codec, txs[i]).value == tx
    ensures ExactMatch(codec, results, txs, threshold)
  {
    forall i, j | 0 <= i < j < |txs| && ParsedAt(codec, txs, i) && ParsedAt(codec, txs, j)
      ensures JobAt(codec, txs, i) != JobAt(codec, txs, j)
    {
      assert ClaimAt(codec, txs, i, Parse(codec, txs[i]).value) && ClaimAt(codec, txs, j, Parse(codec, txs[j]).value);
    }
    forall job | job in results && HasConsensus(results, job)
      ensures Reflected(codec, txs, job, results[job].value)
    {
      var i: nat, tx :| ClaimAt(codec, txs, i, tx) && tx.jobID == job;
      assert ParsedAt(codec, txs, i) && JobAt(codec, txs, i) == job;
    }
    forall i | 0 <= i < |txs| && ParsedAt(codec, txs, i)
      ensures HasConsensus(results, JobAt(codec, txs, i))
    {
      assert ClaimAt(codec, txs, i, Parse(codec, txs[i]).value);
    }
  }

  lemma {:induction false} ExactIffPlain(codec: TxCodec, results: Results, txs: seq<bytes>, threshold: int64)
    ensures ExactMatch(codec, results, txs, threshold) <==> PlainMatch(codec, results, txs, threshold)
  {
    forall i: nat, tx
      ensures ClaimAt(codec, txs, i, tx) <==> ParsedAt(codec, txs, i) && Parse(codec, txs[i]).value == tx
    {
      ClaimIsParsed(codec, txs, i, tx);
    }
    if ExactMatch(codec, results, txs, threshold) {
      ExactIsPlain(codec, results, txs, threshold);
    }
    if PlainMatch(codec, results, txs, threshold) {
      PlainIsExact(codec, results, txs, threshold);
    }
  }
}
