/**
 What becomes of a proposal built by the fallback branch of PrepareProposal: when the other
 validators accept it, and the commits on which it fails or claims more than was voted for.
 */
module ProposalLimits {
  import opened Encoding
  import opened VoteTypes
  import opened Aggregation
  import opened Cache
  import opened PrepareProposal
  import opened ProcessProposal
  import opened Finality
  import QuorumTally
  import Evidence

  // ---------------------------------------------------------------- acceptance

  lemma {:induction false} CountConcat(codec: TxCodec, x: seq<bytes>, y: seq<bytes>)
    ensures Evidence.InjectedCount(codec, x + y) == Evidence.InjectedCount(codec, x) + Evidence.InjectedCount(codec, y)
  {
    if y == [] {
      assert x + y == x;
    } else {
      var n := |y| - 1;
      CountConcat(codec, x, y[..n]);
      assert (x + y)[..|x + y| - 1] == x + y[..n];
    }
  }

  lemma {:induction false} CountUniform(codec: TxCodec, txs: seq<bytes>)
    ensures (forall i :: 0 <= i < |txs| ==> IsInjected(codec, txs[i])) ==> Evidence.InjectedCount(codec, txs) == |txs|
    ensures (forall i :: 0 <= i < |txs| ==> !IsInjected(codec, txs[i])) ==> Evidence.InjectedCount(codec, txs) == 0
  {
    if txs != [] {
      CountUniform(codec, txs[..|txs| - 1]);
    }
  }

  /** The proposal carries one injected transaction per job in order, besides those of the mempool. */
  lemma CarriedCount(codec: TxCodec, results: map<bytes, Aggregated>, height: int64, order: seq<bytes>,
                     mempool: seq<bytes>, txs: seq<bytes>)
    requires TxLossless(codec) && Injects(codec, results, height, order, mempool, txs)
    ensures Evidence.InjectedCount(codec, txs) == |order| + Evidence.InjectedCount(codec, mempool)
    ensures forall i :: 0 <= i < |order| ==> IsInjected(codec, txs[i])
  {
    var front := txs[..|order|];
    assert txs == front + mempool;
    forall i | 0 <= i < |order|
      ensures IsInjected(codec, txs[i])
    {
      var tx := InjectedFrom(results[order[i]], height);
      assert codec.json.enc(tx) == Some(txs[i]);
    }
    CountUniform(codec, front);
    CountConcat(codec, front, mempool);
  }

  /** Neither a production build nor a chain without simulation. */
  predicate Simulating(app: App)
  {
    !app.productionBuild && app.params.Some? && app.params.value.allowSimulated
  }

  /** At most 50 results and 5 MB. */
  predicate WithinCaps(order: seq<bytes>, txs: seq<bytes>) { |order| <= 50 && TotalBytes(txs) <= 5_242_880 }

  /** A proposal whose claims match the commit is accepted, where there is no keeper to ask and the chain
      simulates, exactly when it keeps to the caps and its jobs exist. */
  lemma CarriedAccepted(app: App, view: Option<View>, mempool: seq<bytes>, height: int64, commit: seq<CommitVote>,
                        results: map<bytes, Aggregated>, order: seq<bytes>, txs: seq<bytes>)
    requires TxLossless(app.codec) && Simulating(app) && app.handler.None?
    requires ClaimsMatch(results, height, order, commit, Threshold(app))
    requires forall i :: 0 <= i < |mempool| ==> !IsInjected(app.codec, mempool[i])
    requires Injects(app.codec, results, height, order, mempool, txs)
    ensures Accepts(app, view, Proposal(height, txs, commit)) <==>
      WithinCaps(order, txs) && forall job :: job in order ==> app.jobExists(job)
  {
    CarriedPass(app.codec, mempool, Threshold(app), height, commit, results, order, txs);
    CarriedCount(app.codec, results, height, order, mempool, txs);
    CountUniform(app.codec, mempool);
    MempoolNotInjected(app.codec, results, height, order, mempool, txs);
    forall i | 0 <= i < |order|
      ensures IsInjected(app.codec, txs[i]) && (TxOk(app, txs[i]) <==> app.jobExists(order[i]))
    {
      var tx := InjectedFrom(results[order[i]], height);
      assert app.codec.json.dec(txs[i]) == Some(tx);
    }
    if forall i :: 0 <= i < |txs| && IsInjected(app.codec, txs[i]) ==> TxOk(app, txs[i]) {
      forall job | job in order
        ensures app.jobExists(job)
      {
        var i :| 0 <= i < |order| && order[i] == job;
        assert IsInjected(app.codec, txs[i]);
      }
    }
  }

  /** An honest fallback proposal is accepted by every node that could have built it, exactly when it
      carries at most 50 results, is at most 5 MB long, and all its jobs exist. */
  lemma {:induction false} HonestAcceptedIff(app: App, view: Option<View>, dec: Decoder, votes: seq<ExtendedVote>,
                                             mempool: seq<bytes>, blockTime: int, height: int64,
                                             results: map<bytes, Aggregated>, order: seq<bytes>, txs: seq<bytes>)
    requires TxLossless(app.codec) && Simulating(app) && app.handler.None? && AllWellBehaved(dec, votes)
    requires Evidence.SumPower(Commit(votes)) > 0
    requires Evidence.NoOverflow(Evidence.SumPower(Commit(votes)), Threshold(app))
    requires forall i :: 0 <= i < |mempool| ==> !IsInjected(app.codec, mempool[i])
    requires IsAggregate(Usable(dec, votes), Threshold(app), true, blockTime, results)
    requires Injects(app.codec, results, height, order, mempool, txs)
    ensures Accepts(app, view, Proposal(height, txs, Commit(votes))) <==>
      WithinCaps(order, txs) && forall job :: job in order ==> app.jobExists(job)
  {
    HonestClaimsMatch(app.codec, dec, votes, mempool, Threshold(app), true, blockTime, height, results, order, txs);
    CarriedAccepted(app, view, mempool, height, Commit(votes), results, order, txs);
  }

  /** What a node that does not simulate demands of its own cache: it has one, and if that has an entry for the
      commit, its extensions back a quorum and yield exactly the proposed results. */
  ghost predicate CacheAgrees(app: App, view: Option<View>, height: int64, commit: seq<CommitVote>,
                              order: seq<bytes>, txs: seq<bytes>)
    requires app.handler.Some?
  {
    view.Some? &&
    var last := Wrap64(height - 1);
    FoundCount(view.value.byHeight, view.value.chainID, last, commit) > 0 ==>
      var votes := Extended(view.value.byHeight, view.value.chainID, last, commit);
      && (order != [] ==> EvidenceQuorum(votes, Threshold(app)))
      && ExactMatch(app.codec, app.handler.value.aggregate(votes), txs, Threshold(app))
  }

  /** A node with a keeper accepts a proposal whose claims match the commit exactly when it keeps to the caps,
      every seal validates and, unless the chain simulates, the cache agrees. */
  lemma {:induction false} KeeperAcceptedIff(app: App, view: Option<View>, mempool: seq<bytes>, height: int64,
                                             commit: seq<CommitVote>, results: map<bytes, Aggregated>,
                                             order: seq<bytes>, txs: seq<bytes>)
    requires TxLossless(app.codec) && app.handler.Some?
    requires ClaimsMatch(results, height, order, commit, Threshold(app))
    requires forall i :: 0 <= i < |mempool| ==> !IsInjected(app.codec, mempool[i])
    requires Injects(app.codec, results, height, order, mempool, txs)
    ensures Accepts(app, view, Proposal(height, txs, commit)) <==>
      && WithinCaps(order, txs)
      && (forall i :: 0 <= i < |order| ==> app.handler.value.validateSeal(txs[i]))
      && (!Simulating(app) ==> CacheAgrees(app, view, height, commit, order, txs))
  {
    CarriedPass(app.codec, mempool, Threshold(app), height, commit, results, order, txs);
    CarriedCount(app.codec, results, height, order, mempool, txs);
    CountUniform(app.codec, mempool);
    MempoolNotInjected(app.codec, results, height, order, mempool, txs);
    assert forall i :: 0 <= i < |order| ==> (TxOk(app, txs[i]) <==> app.handler.value.validateSeal(txs[i]));
    assert Production(app) <==> !Simulating(app);
  }

  /** So an honest proposal reaches every production node whose cache has no entry for the commit, exactly when
      it keeps to the caps and every seal validates. */
  lemma {:induction false} HonestAcceptedByKeeperIff(app: App, view: View, dec: Decoder, votes: seq<ExtendedVote>,
                                                     mempool: seq<bytes>, allowSimulated: bool, blockTime: int,
                                                     height: int64, results: map<bytes, Aggregated>,
                                                     order: seq<bytes>, txs: seq<bytes>)
    requires TxLossless(app.codec) && app.handler.Some? && AllWellBehaved(dec, votes)
    requires Evidence.SumPower(Commit(votes)) > 0
    requires Evidence.NoOverflow(Evidence.SumPower(Commit(votes)), Threshold(app))
    requires forall i :: 0 <= i < |mempool| ==> !IsInjected(app.codec, mempool[i])
    requires IsAggregate(Usable(dec, votes), Threshold(app), allowSimulated, blockTime, results)
    requires Injects(app.codec, results, height, order, mempool, txs)
    requires FoundCount(view.byHeight, view.chainID, Wrap64(height - 1), Commit(votes)) == 0
    ensures Accepts(app, Some(view), Proposal(height, txs, Commit(votes))) <==>
      WithinCaps(order, txs) && forall i :: 0 <= i < |order| ==> app.handler.value.validateSeal(txs[i])
  {
    HonestClaimsMatch(app.codec, dec, votes, mempool, Threshold(app), allowSimulated, blockTime, height,
                      results, order, txs);
    KeeperAcceptedIff(app, Some(view), mempool, height, Commit(votes), results, order, txs);
  }

  /** The proposer has no cap: beyond 50 results every validator rejects, in whatever mode. */
  lemma {:induction false} OverCapRejected(app: App, view: Option<View>, commit: seq<CommitVote>, height: int64,
                                           mempool: seq<bytes>, results: map<bytes, Aggregated>, order: seq<bytes>,
                                           txs: seq<bytes>)
    requires TxLossless(app.codec) && Injects(app.codec, results, height, order, mempool, txs) && |order| > 50
    ensures !Accepts(app, view, Proposal(height, txs, commit))
  {
    CarriedCount(app.codec, results, height, order, mempool, txs);
  }

  // ---------------------------------------------------------------- commits with one output per job

  /** Every one of the jobs, and no other, is reported with this output and no other. */
  ghost predicate OneOutput(es: seq<Entry>, jobs: set<bytes>, key: bytes)
  {
    && (forall job :: HasJob(es, job) <==> job in jobs)
    && (forall job, k :: HasKey(es, job, k) <==> job in jobs && k == key)
  }

  function Winners(es: seq<Entry>, jobs: set<bytes>, key: bytes, totalVotes: nat, total: int64,
                   blockTime: int): map<bytes, Aggregated>
    requires forall job :: job in jobs ==> HasJob(es, job)
  {
    map job | job in jobs :: Won(Initial(First(es, job), totalVotes, total), es, key, blockTime)
  }

  lemma OnlyOutcome(es: seq<Entry>, totalVotes: nat, s: Setup, blockTime: int, jobs: set<bytes>, key: bytes,
                    job: bytes, a: Aggregated)
    requires s.Setup? && OneOutput(es, jobs, key) && job in jobs && Reaches(es, s.required, job, key)
    ensures JobOutcome(es, totalVotes, s, blockTime, job, a)
       <==> a == Won(Initial(First(es, job), totalVotes, s.total), es, key, blockTime)
  {
  }

  /** Where each job has one output and it reaches the power, the aggregation has one result. */
  lemma OnlyWinners(votes: seq<Vote>, threshold: int64, allowSimulated: bool, blockTime: int, jobs: set<bytes>,
                    key: bytes,
                    results: map<bytes, Aggregated>)
    requires var s := SetupOf(votes, threshold, allowSimulated);
      && s.Setup? && OneOutput(Entries(votes, s.fallback), jobs, key)
      && forall job :: job in jobs ==> Reaches(Entries(votes, s.fallback), s.required, job, key)
    ensures var s := SetupOf(votes, threshold, allowSimulated);
      IsAggregate(votes, threshold, allowSimulated, blockTime, results)
      <==> results == Winners(Entries(votes, s.fallback), jobs, key, |votes|, s.total, blockTime)
  {
    var s := SetupOf(votes, threshold, allowSimulated);
    var es := Entries(votes, s.fallback);
    var w := Winners(es, jobs, key, |votes|, s.total, blockTime);
    forall job: bytes, a: Aggregated | job in jobs
      ensures JobOutcome(es, |votes|, s, blockTime, job, a) <==> a == w[job]
    {
      OnlyOutcome(es, |votes|, s, blockTime, jobs, key, job, a);
    }
  }

  // ---------------------------------------------------------------- one vote that reports, others that do not

  /** The vote has power 1 and lists exactly these jobs, each with this output; everything else about its
      extension and entries is arbitrary. */
  predicate Lists(v: Vote, jobs: seq<bytes>, output: bytes)
  {
    && v.power == 1 && v.ext.Some?
    && var vs := v.ext.value.verifications;
       && |vs| == |jobs|
       && forall i :: 0 <= i < |vs| ==> vs[i].success && vs[i].jobID == jobs[i] && vs[i].outputHash == output
  }

  /** The vote has power 1 and an extension without a successful entry. */
  predicate Silent(v: Vote)
  {
    && v.power == 1 && v.ext.Some?
    && forall i :: 0 <= i < |v.ext.value.verifications| ==> !v.ext.value.verifications[i].success
  }

  /** The first vote lists the jobs, the others report nothing. */
  predicate OneReporter(votes: seq<Vote>, jobs: seq<bytes>, output: bytes)
  {
    votes != [] && Lists(votes[0], jobs, output) && forall i :: 1 <= i < |votes| ==> Silent(votes[i])
  }

  lemma BacksListed(v: Vote, jobs: seq<bytes>, output: bytes, job: bytes, key: bytes)
    requires Lists(v, jobs, output)
    ensures QuorumTally.Backs(v, job, key) <==> job in jobs && key == Hex(output)
    ensures QuorumTally.Succeeds(v, job) <==> job in jobs
  {
    var vs := v.ext.value.verifications;
    if job in jobs {
      var i :| 0 <= i < |jobs| && jobs[i] == job;
      assert vs[i].success && vs[i].jobID == job && vs[i].outputHash == output;
    }
  }

  lemma FirstDecides(votes: seq<Vote>, fallback: bool, job: bytes, key: bytes)
    requires votes != []
    requires forall i :: 1 <= i < |votes| ==>
      !QuorumTally.Backs(votes[i], job, key) && !QuorumTally.Succeeds(votes[i], job)
    ensures HasJob(Entries(votes, fallback), job) <==> QuorumTally.Succeeds(votes[0], job)
    ensures HasKey(Entries(votes, fallback), job, key) <==> QuorumTally.Backs(votes[0], job, key)
  {
    QuorumTally.TalliedKeys(votes, fallback, job, key);
  }

  lemma ReporterKeys(votes: seq<Vote>, jobs: seq<bytes>, output: bytes, fallback: bool, job: bytes, key: bytes)
    requires OneReporter(votes, jobs, output)
    ensures HasJob(Entries(votes, fallback), job) <==> job in jobs
    ensures HasKey(Entries(votes, fallback), job, key) <==> job in jobs && key == Hex(output)
  {
    BacksListed(votes[0], jobs, output, job, key);
    FirstDecides(votes, fallback, job, key);
  }

  lemma ReporterTallies(votes: seq<Vote>, jobs: seq<bytes>, output: bytes, names: set<bytes>, fallback: bool)
    requires OneReporter(votes, jobs, output) && forall job :: job in names <==> job in jobs
    ensures OneOutput(Entries(votes, fallback), names, Hex(output))
  {
    forall job
      ensures HasJob(Entries(votes, fallback), job) <==> job in names
    {
      ReporterKeys(votes, jobs, output, fallback, job, []);
    }
    forall job, key
      ensures HasKey(Entries(votes, fallback), job, key) <==> job in names && key == Hex(output)
    {
      ReporterKeys(votes, jobs, output, fallback, job, key);
    }
  }

  /** How often a list of jobs names a job. */
  function Times(jobs: seq<bytes>, job: bytes): nat
  {
    if jobs == [] then 0 else Times(jobs[..|jobs| - 1], job) + if jobs[|jobs| - 1] == job then 1 else 0
  }

  lemma {:induction false} ReportsListed(vs: seq<ComputeVerification>, jobs: seq<bytes>, output: bytes, job: bytes)
    requires |vs| == |jobs|
    requires forall i :: 0 <= i < |vs| ==> vs[i].success && vs[i].jobID == jobs[i] && vs[i].outputHash == output
    ensures QuorumTally.Reports(vs, job, Hex(output)) == Times(jobs, job)
  {
    if vs != [] {
      var n := |vs| - 1;
      ReportsListed(vs[..n], jobs[..n], output, job);
      assert QuorumTally.Reporting(vs[n], job, Hex(output)) <==> jobs[n] == job;
    }
  }

  lemma {:induction false} ReportsNothing(vs: seq<ComputeVerification>, job: bytes, key: bytes)
    requires forall i :: 0 <= i < |vs| ==> !vs[i].success
    ensures QuorumTally.Reports(vs, job, key) == 0
  {
    if vs != [] {
      ReportsNothing(vs[..|vs| - 1], job, key);
    }
  }

  lemma ListedPower(v: Vote, jobs: seq<bytes>, output: bytes, job: bytes)
    requires Lists(v, jobs, output)
    ensures Power(VoteEntries(v, false), job, Hex(output)) == Times(jobs, job)
    ensures |Atts(VoteEntries(v, false), job, Hex(output))| == Times(jobs, job)
  {
    var ext := v.ext.value;
    QuorumTally.ExtensionTally(ext, ext.verifications, 1, job, Hex(output));
    ReportsListed(ext.verifications, jobs, output, job);
  }

  lemma SilentPower(v: Vote, job: bytes, key: bytes)
    requires Silent(v)
    ensures Power(VoteEntries(v, false), job, key) == 0 && |Atts(VoteEntries(v, false), job, key)| == 0
  {
    var ext := v.ext.value;
    QuorumTally.ExtensionTally(ext, ext.verifications, 1, job, key);
    ReportsNothing(ext.verifications, job, key);
  }

  lemma TallySnoc(votes: seq<Vote>, job: bytes, key: bytes)
    requires votes != []
    ensures var n := |votes| - 1;
      && Power(Entries(votes, false), job, key)
         == Power(Entries(votes[..n], false), job, key) + Power(VoteEntries(votes[n], false), job, key)
      && |Atts(Entries(votes, false), job, key)|
         == |Atts(Entries(votes[..n], false), job, key)| + |Atts(VoteEntries(votes[n], false), job, key)|
  {
    var n := |votes| - 1;
    QuorumTally.Concat(Entries(votes[..n], false), VoteEntries(votes[n], false), job, key);
  }

  /** The reporter's power is counted once for each time it lists the job. */
  lemma {:induction false} ReporterPower(votes: seq<Vote>, jobs: seq<bytes>, output: bytes, job: bytes)
    requires OneReporter(votes, jobs, output)
    ensures Power(Entries(votes, false), job, Hex(output)) == Times(jobs, job)
    ensures |Atts(Entries(votes, false), job, Hex(output))| == Times(jobs, job)
  {
    var n := |votes| - 1;
    TallySnoc(votes, job, Hex(output));
    if n == 0 {
      ListedPower(votes[0], jobs, output, job);
    } else {
      SilentPower(votes[n], job, Hex(output));
      ReporterPower(votes[..n], jobs, output, job);
    }
  }

  lemma {:induction false} ReporterTotal(votes: seq<Vote>, jobs: seq<bytes>, output: bytes)
    requires OneReporter(votes, jobs, output)
    ensures TotalPower(votes) == |votes|
  {
    if |votes| > 1 {
      ReporterTotal(votes[..|votes| - 1], jobs, output);
    } else {
      assert votes[..0] == [];
    }
  }

  lemma ReporterWins(votes: seq<Vote>, jobs: seq<bytes>, output: bytes, names: set<bytes>, allowSimulated: bool,
                     blockTime: int, required: int64, results: map<bytes, Aggregated>)
    requires OneReporter(votes, jobs, output) && (forall job :: job in names <==> job in jobs)
    requires |votes| < TWO_63 && SetupOf(votes, 67, allowSimulated) == Setup(|votes|, false, required)
    requires forall job :: job in names ==> required <= Times(jobs, job) < TWO_63
    ensures OneOutput(Entries(votes, false), names, Hex(output))
    ensures IsAggregate(votes, 67, allowSimulated, blockTime, results)
       <==> results == Winners(Entries(votes, false), names, Hex(output), |votes|, |votes|, blockTime)
  {
    ReporterTallies(votes, jobs, output, names, false);
    forall job | job in names
      ensures Reaches(Entries(votes, false), required, job, Hex(output))
    {
      ReporterPower(votes, jobs, output, job);
    }
    OnlyWinners(votes, 67, allowSimulated, blockTime, names, Hex(output), results);
  }

  /** A winning result for a job: the output, claimed by so many of these votes of power 1 each. */
  predicate Claims(a: Aggregated, job: bytes, output: bytes, votes: nat, agreement: nat)
  {
    && a.jobID == job && a.outputHash == output && a.hasConsensus && a.totalVotes == votes && a.totalPower == votes
    && a.agreementPower == agreement && a.validatorCount == agreement
  }

  /** What the tally makes of a job that wins. */
  function WonBy(votes: seq<Vote>, output: bytes, blockTime: int, job: bytes): Aggregated
    requires |votes| < TWO_63 && HasJob(Entries(votes, false), job)
  {
    var es := Entries(votes, false);
    Won(Initial(First(es, job), |votes|, |votes|), es, Hex(output), blockTime)
  }

  /** A winner carries its JobID, and decoding the winning key gives the output back. */
  lemma WinnerClaims(votes: seq<Vote>, jobs: seq<bytes>, output: bytes, blockTime: int, job: bytes)
    requires OneReporter(votes, jobs, output) && HasJob(Entries(votes, false), job)
    requires |votes| < TWO_63 && Times(jobs, job) < TWO_63
    ensures Claims(WonBy(votes, output, blockTime, job), job, output, |votes|, Times(jobs, job))
  {
    FirstJob(Entries(votes, false), job);
    HexRoundTrip(output);
    ReporterPower(votes, jobs, output, job);
  }

  lemma ReporterOnly(votes: seq<Vote>, jobs: seq<bytes>, output: bytes, names: set<bytes>, allowSimulated: bool,
                     blockTime: int, required: int64)
    returns (results: map<bytes, Aggregated>)
    requires OneReporter(votes, jobs, output) && (forall job :: job in names <==> job in jobs)
    requires |votes| < TWO_63 && SetupOf(votes, 67, allowSimulated) == Setup(|votes|, false, required)
    requires forall job :: job in names ==> required <= Times(jobs, job) < TWO_63
    ensures forall r :: IsAggregate(votes, 67, allowSimulated, blockTime, r) <==> r == results
    ensures results.Keys == names
    ensures forall job :: job in names ==>
      HasJob(Entries(votes, false), job) && results[job] == WonBy(votes, output, blockTime, job)
  {
    ReporterTallies(votes, jobs, output, names, false);
    results := Winners(Entries(votes, false), names, Hex(output), |votes|, |votes|, blockTime);
    forall r: map<bytes, Aggregated>
      ensures IsAggregate(votes, 67, allowSimulated, blockTime, r) <==> r == results
    {
      ReporterWins(votes, jobs, output, names, allowSimulated, blockTime, required, r);
    }
  }

  /** Where the reporter lists every job often enough, each of them wins, and nothing else can come out. */
  lemma ReporterResult(votes: seq<Vote>, jobs: seq<bytes>, output: bytes, names: set<bytes>, allowSimulated: bool,
                       blockTime: int, required: int64)
    returns (results: map<bytes, Aggregated>)
    requires OneReporter(votes, jobs, output) && (forall job :: job in names <==> job in jobs)
    requires |votes| < TWO_63 && SetupOf(votes, 67, allowSimulated) == Setup(|votes|, false, required)
    requires forall job :: job in names ==> required <= Times(jobs, job) < TWO_63
    ensures forall r :: IsAggregate(votes, 67, allowSimulated, blockTime, r) <==> r == results
    ensures results.Keys == names
    ensures forall job :: job in names ==> Claims(results[job], job, output, |votes|, Times(jobs, job))
  {
    results := ReporterOnly(votes, jobs, output, names, allowSimulated, blockTime, required);
    forall job | job in names
      ensures Claims(results[job], job, output, |votes|, Times(jobs, job))
    {
      WinnerClaims(votes, jobs, output, blockTime, job);
    }
  }

  /** One result, and its claim. */
  predicate LoneClaim(results: map<bytes, Aggregated>, job: bytes, output: bytes, votes: nat, agreement: nat)
  {
    results.Keys == {job} && Claims(results[job], job, output, votes, agreement)
  }

  /** The fallback's transactions when there is one result and it encodes to data. */
  lemma LoneResult(codec: TxCodec, results: map<bytes, Aggregated>, height: int64, job: bytes, data: bytes)
    requires results.Keys == {job} && results[job].hasConsensus
    requires codec.json.enc(InjectedFrom(results[job], height)) == Some(data)
    ensures Injects(codec, results, height, [job], [], [data]) && Complete(codec, results, height, [job])
    ensures TotalBytes([data]) == |data|
  {
    assert [data][1..] == [];
    assert [data][..0] == [];
  }

  /** The vote a proposer makes of a commit vote that is present. */
  function Read(dec: Decoder, v: ExtendedVote): Vote { Vote(dec(v.ext), v.vote.power) }

  // ---------------------------------------------------------------- a partial commit

  /** Two commit votes, of which the first lists the job once and the second has no extension. */
  predicate HalfPresent(dec: Decoder, votes: seq<ExtendedVote>, job: bytes, output: bytes)
  {
    |votes| == 2 && Present(dec, votes[0]) && Lists(Read(dec, votes[0]), [job], output) && votes[1].ext == []
  }

  lemma OneUsable(dec: Decoder, v: ExtendedVote)
    requires Present(dec, v)
    ensures Usable(dec, [v]) == [Read(dec, v)]
  {
    assert [v][..0] == [];
  }

  lemma HalfUsable(dec: Decoder, votes: seq<ExtendedVote>, job: bytes, output: bytes)
    requires HalfPresent(dec, votes, job, output)
    ensures Usable(dec, votes) == [Read(dec, votes[0])]
  {
    assert votes[..1] == [votes[0]];
    OneUsable(dec, votes[0]);
  }

  lemma OneVoteSetup(v: Vote, jobs: seq<bytes>, output: bytes, allowSimulated: bool)
    requires Lists(v, jobs, output)
    ensures OneReporter([v], jobs, output)
    ensures SetupOf([v], 67, allowSimulated) == Setup(1, false, 1)
  {
    ReporterTotal([v], jobs, output);
  }

  lemma LoneIssue(codec: TxCodec, commit: seq<CommitVote>, tx: InjectedTx, data: bytes)
    requires IsInjected(codec, data) && codec.json.dec(data) == Some(tx) && Evidence.WellFormed(tx)
    requires !Evidence.MatchesCommit(tx, commit, 67)
    ensures Evidence.AllIssues(codec, [data], commit, 67)
         == [Evidence.Issue(0, tx.jobID, Evidence.CommitEvidenceMismatch)]
  {
    var issues := [Evidence.Issue(0, tx.jobID, Evidence.CommitEvidenceMismatch)];
    assert Evidence.IssuesAt(codec, [data], commit, 67, 0) == issues;
    var rows := Evidence.Rows(codec, [data], commit, 67);
    assert rows == [issues];
    assert rows[..0] == [];
    assert Evidence.Flatten(rows) == Evidence.Flatten([]) + issues;
  }

  /** The claim of one vote does not match a commit of two. */
  lemma HalfClaimFails(codec: TxCodec, commit: seq<CommitVote>, results: map<bytes, Aggregated>, height: int64,
                       job: bytes, output: bytes, data: bytes)
    requires TxLossless(codec) && |commit| == 2 && job != [] && |output| == 32 && LoneClaim(results, job, output, 1, 1)
    requires codec.json.enc(InjectedFrom(results[job], height)) == Some(data)
    ensures Evidence.AllIssues(codec, [data], commit, 67)
         == [Evidence.Issue(0, job, Evidence.CommitEvidenceMismatch)]
  {
    LoneIssue(codec, commit, InjectedFrom(results[job], height), data);
  }

  lemma TimesOne(job: bytes)
    ensures Times([job], job) == 1 && Times([job, job, job], job) == 3
  {
    assert [job][..0] == [] && [job, job][..1] == [job] && [job, job, job][..2] == [job, job];
    assert Times([job, job], job) == Times([job], job) + 1;
  }

  /** Commits on which the fallback fails its own audit: the aggregation sees one of two votes, lets it
      decide alone, and the audit of the two-vote commit finds that the totals do not match. */
  lemma {:induction false} PartialCommitFails(codec: TxCodec, dec: Decoder, votes: seq<ExtendedVote>, job: bytes,
                                              output: bytes, allowSimulated: bool, blockTime: int, height: int64)
    returns (results: map<bytes, Aggregated>)
    requires TxLossless(codec) && HalfPresent(dec, votes, job, output) && job != [] && |output| == 32
    ensures forall r :: IsAggregate(Usable(dec, votes), 67, allowSimulated, blockTime, r) <==> r == results
    ensures LoneClaim(results, job, output, 1, 1)
    ensures forall data :: codec.json.enc(InjectedFrom(results[job], height)) == Some(data) ==>
      && Injects(codec, results, height, [job], [], [data]) && Complete(codec, results, height, [job])
      && Evidence.AllIssues(codec, [data], Commit(votes), 67)
           == [Evidence.Issue(0, job, Evidence.CommitEvidenceMismatch)]
  {
    var v := Read(dec, votes[0]);
    HalfUsable(dec, votes, job, output);
    OneVoteSetup(v, [job], output, allowSimulated);
    TimesOne(job);
    results := ReporterResult([v], [job], output, {job}, allowSimulated, blockTime, 1);
    forall data | codec.json.enc(InjectedFrom(results[job], height)) == Some(data)
      ensures Injects(codec, results, height, [job], [], [data]) && Complete(codec, results, height, [job])
      ensures Evidence.AllIssues(codec, [data], Commit(votes), 67)
           == [Evidence.Issue(0, job, Evidence.CommitEvidenceMismatch)]
    {
      LoneResult(codec, results, height, job, data);
      HalfClaimFails(codec, Commit(votes), results, height, job, output, data);
    }
  }

  // ---------------------------------------------------------------- a repeated entry

  /** Three commit votes of power 1: the first lists the job three times, the others report nothing. */
  predicate Repeats(dec: Decoder, votes: seq<ExtendedVote>, job: bytes, output: bytes)
  {
    && |votes| == 3 && Present(dec, votes[0]) && Present(dec, votes[1]) && Present(dec, votes[2])
    && Lists(Read(dec, votes[0]), [job, job, job], output)
    && Silent(Read(dec, votes[1])) && Silent(Read(dec, votes[2]))
  }

  function ReadThree(dec: Decoder, votes: seq<ExtendedVote>): seq<Vote>
    requires |votes| == 3
  {
    [Read(dec, votes[0]), Read(dec, votes[1]), Read(dec, votes[2])]
  }

  lemma RepeatedUsable(dec: Decoder, votes: seq<ExtendedVote>, job: bytes, output: bytes)
    requires Repeats(dec, votes, job, output)
    ensures Usable(dec, votes) == ReadThree(dec, votes)
    ensures OneReporter(ReadThree(dec, votes), [job, job, job], output)
  {
    var v, w := votes[0], votes[1];
    assert votes[..2] == [v, w] && [v, w][..1] == [v];
    OneUsable(dec, v);
    assert Usable(dec, [v, w]) == [Read(dec, v), Read(dec, w)];
  }

  lemma RepeatedTotal(dec: Decoder, votes: seq<ExtendedVote>, job: bytes, output: bytes)
    requires Repeats(dec, votes, job, output)
    ensures Evidence.SumPower(Commit(votes)) == 3
  {
    var c := Commit(votes);
    assert c[..2] == [c[0], c[1]] && [c[0], c[1]][..1] == [c[0]] && [c[0]][..0] == [];
    assert Evidence.SumPower([c[0]]) == 1;
    assert Evidence.SumPower([c[0], c[1]]) == 2;
  }

  /** Only the first of the three stands behind the output. */
  lemma OneThirdBacks(votes: seq<Vote>, job: bytes, output: bytes)
    requires |votes| == 3 && OneReporter(votes, [job, job, job], output)
    ensures QuorumTally.Sum(votes, QuorumTally.BackingWeight(job, Hex(output), false)) == 1
  {
    var f := QuorumTally.BackingWeight(job, Hex(output), false);
    BacksListed(votes[0], [job, job, job], output, job, Hex(output));
    assert votes[..2] == [votes[0], votes[1]];
    QuorumTally.SumOfTwo([votes[0], votes[1]], f);
  }

  /** A node that could have built the proposal: no keeper to ask, on a chain that simulates, at 67 percent. */
  predicate Plain(app: App)
  {
    Simulating(app) && app.handler.None? && app.params.value.threshold <= 67
  }

  lemma RepeatedClaimAccepted(app: App, view: Option<View>, height: int64, commit: seq<CommitVote>,
                              results: map<bytes, Aggregated>, job: bytes, output: bytes, data: bytes)
    requires TxLossless(app.codec) && Plain(app) && app.jobExists(job) && job != [] && |output| == 32
    requires |commit| == 3 && Evidence.SumPower(commit) == 3 && LoneClaim(results, job, output, 3, 3)
    requires app.codec.json.enc(InjectedFrom(results[job], height)) == Some(data) && |data| <= 5_242_880
    ensures Injects(app.codec, results, height, [job], [], [data]) && Complete(app.codec, results, height, [job])
    ensures Evidence.AllIssues(app.codec, [data], commit, 67) == []
    ensures Accepts(app, view, Proposal(height, [data], commit))
  {
    LoneResult(app.codec, results, height, job, data);
    assert ClaimsMatch(results, height, [job], commit, 67);
    CarriedPass(app.codec, [], 67, height, commit, results, [job], [data]);
    CarriedAccepted(app, view, [], height, commit, results, [job], [data]);
  }

  /** One vote of three, listing its result three times, decides the job alone: whatever the map
      orders, the claim holds all of the commit's power although a third of it stands behind the
      output, passes the audit, and is accepted by every node that could have built it. */
  lemma {:induction false} RepeatedEntryWins(app: App, view: Option<View>, dec: Decoder, votes: seq<ExtendedVote>,
                                             job: bytes, output: bytes, allowSimulated: bool, blockTime: int,
                                             height: int64)
    returns (results: map<bytes, Aggregated>)
    requires Repeats(dec, votes, job, output) && job != [] && |output| == 32
    ensures forall r :: IsAggregate(Usable(dec, votes), 67, allowSimulated, blockTime, r) <==> r == results
    ensures LoneClaim(results, job, output, 3, 3)
    ensures QuorumTally.Sum(Usable(dec, votes), QuorumTally.BackingWeight(job, Hex(output), false)) == 1
    ensures TxLossless(app.codec) && Plain(app) && app.jobExists(job) ==>
      forall data :: app.codec.json.enc(InjectedFrom(results[job], height)) == Some(data) && |data| <= 5_242_880 ==>
        && Injects(app.codec, results, height, [job], [], [data]) && Complete(app.codec, results, height, [job])
        && Evidence.AllIssues(app.codec, [data], Commit(votes), 67) == []
        && Accepts(app, view, Proposal(height, [data], Commit(votes)))
  {
    var three, jobs := ReadThree(dec, votes), [job, job, job];
    RepeatedUsable(dec, votes, job, output);
    RepeatedTotal(dec, votes, job, output);
    ReporterTotal(three, jobs, output);
    TimesOne(job);
    results := ReporterResult(three, jobs, output, {job}, allowSimulated, blockTime, 3);
    OneThirdBacks(three, job, output);
    if TxLossless(app.codec) && Plain(app) && app.jobExists(job) {
      forall data | app.codec.json.enc(InjectedFrom(results[job], height)) == Some(data) && |data| <= 5_242_880
        ensures Injects(app.codec, results, height, [job], [], [data]) && Complete(app.codec, results, height, [job])
        ensures Evidence.AllIssues(app.codec, [data], Commit(votes), 67) == []
        ensures Accepts(app, view, Proposal(height, [data], Commit(votes)))
      {
        RepeatedClaimAccepted(app, view, height, Commit(votes), results, job, output, data);
      }
    }
  }

  // ---------------------------------------------------------------- more results than a proposal may carry

  predicate Distinct(jobs: seq<bytes>)
  {
    forall i, j :: 0 <= i < j < |jobs| ==> jobs[i] != jobs[j]
  }

  lemma {:induction false} TimesAbsent(jobs: seq<bytes>, job: bytes)
    requires job !in jobs
    ensures Times(jobs, job) == 0
  {
    if jobs != [] {
      TimesAbsent(jobs[..|jobs| - 1], job);
    }
  }

  lemma {:induction false} TimesDistinct(jobs: seq<bytes>, job: bytes)
    requires Distinct(jobs) && job in jobs
    ensures Times(jobs, job) == 1
  {
    var n := |jobs| - 1;
    if jobs[n] == job {
      TimesAbsent(jobs[..n], job);
    } else {
      TimesDistinct(jobs[..n], job);
    }
  }

  function Elements(jobs: seq<bytes>): set<bytes> { set job | job in jobs }

  lemma {:induction false} ElementsCount(jobs: seq<bytes>)
    ensures |Elements(jobs)| <= |jobs|
    ensures Distinct(jobs) ==> |Elements(jobs)| == |jobs|
  {
    if jobs != [] {
      var n := |jobs| - 1;
      ElementsCount(jobs[..n]);
      assert Elements(jobs) == Elements(jobs[..n]) + {jobs[n]};
    }
  }

  predicate AllWon(results: map<bytes, Aggregated>)
  {
    forall job :: job in results ==> results[job].hasConsensus
  }

  /** A reporter that lists each job once, where that is enough, has all of them decided alone. */
  lemma EachJobWins(votes: seq<Vote>, jobs: seq<bytes>, output: bytes, allowSimulated: bool, blockTime: int,
                    results: map<bytes, Aggregated>)
    requires OneReporter(votes, jobs, output) && |votes| < TWO_63 && Distinct(jobs)
    requires SetupOf(votes, 67, allowSimulated) == Setup(|votes|, false, 1)
    requires IsAggregate(votes, 67, allowSimulated, blockTime, results)
    ensures results.Keys == Elements(jobs) && AllWon(results)
  {
    forall job | job in Elements(jobs)
      ensures Times(jobs, job) == 1
    {
      TimesDistinct(jobs, job);
    }
    var only := ReporterResult(votes, jobs, output, Elements(jobs), allowSimulated, blockTime, 1);
    assert results == only;
  }

  /** Every result can be encoded. */
  predicate AllEncode(codec: TxCodec, results: map<bytes, Aggregated>, height: int64)
  {
    forall job :: job in results ==> codec.json.enc(InjectedFrom(results[job], height)).Some?
  }

  /** The fallback carries every result that was won. */
  lemma AllCarried(codec: TxCodec, results: map<bytes, Aggregated>, height: int64, order: seq<bytes>)
    requires AllWon(results) && AllEncode(codec, results, height) && Complete(codec, results, height, order)
    ensures |order| >= |results|
  {
    forall job | job in results
      ensures job in Elements(order)
    {
      assert Carried(codec, results[job], height);
    }
    assert Elements(order) == results.Keys + (Elements(order) - results.Keys);
    ElementsCount(order);
  }

  /** An extension may report 100 jobs and a proposal carry 50 results. From a commit of one vote that
      lists more than 50, whatever the fallback builds, every validator rejects. */
  lemma {:induction false} ManyJobsRejected(app: App, view: Option<View>, dec: Decoder, v: ExtendedVote,
                                            jobs: seq<bytes>, output: bytes, allowSimulated: bool, blockTime: int,
                                            height: int64, mempool: seq<bytes>, results: map<bytes, Aggregated>,
                                            order: seq<bytes>, txs: seq<bytes>)
    requires Present(dec, v) && Lists(Read(dec, v), jobs, output) && Distinct(jobs) && |jobs| > 50
    requires IsAggregate(Usable(dec, [v]), 67, allowSimulated, blockTime, results)
    requires TxLossless(app.codec) && AllEncode(app.codec, results, height)
    requires Injects(app.codec, results, height, order, mempool, txs) && Complete(app.codec, results, height, order)
    ensures |results| == |jobs| <= |order| && !Accepts(app, view, Proposal(height, txs, Commit([v])))
  {
    OneUsable(dec, v);
    OneVoteSetup(Read(dec, v), jobs, output, allowSimulated);
    EachJobWins([Read(dec, v)], jobs, output, allowSimulated, blockTime, results);
    ElementsCount(jobs);
    AllCarried(app.codec, results, height, order);
    OverCapRejected(app, view, Commit([v]), height, mempool, results, order, txs);
  }

  // ---------------------------------------------------------------- such commits and codecs exist

  function Entry32(job: bytes, output: bytes): ComputeVerification
  {
    ComputeVerification(job, Zeros(32), Zeros(32), output, [], None, None, 1, true, [], [], Zeros(32))
  }

  function ExtensionOf(addr: bytes, jobs: seq<bytes>, output: bytes): VoteExtension
  {
    VoteExtension(1, 1, addr, seq(|jobs|, i requires 0 <= i < |jobs| => Entry32(jobs[i], output)), 0, [], [], [])
  }

  /** The extension of each validator is sent as its address; the first lists the jobs. */
  function ByAddress(jobs: seq<bytes>, output: bytes): Decoder
  {
    b => if b == [1] then Some(ExtensionOf(b, jobs, output)) else Some(ExtensionOf(b, [], output))
  }

  function Sent(addr: bytes): ExtendedVote { ExtendedVote(CommitVote(addr, 1, 2), addr) }

  /** A codec that knows exactly the transactions for these results, under their JobIDs. */
  function CodecFor(results: map<bytes, Aggregated>, height: int64): TxCodec
  {
    TxCodec(b => if b in results && b != [] then Some(INJECTED_TYPE) else None,
            JsonCodec((tx: InjectedTx) =>
                        if tx.jobID in results && tx.jobID != [] && tx == InjectedFrom(results[tx.jobID], height)
                        then Some(tx.jobID) else None,
                      b => if b in results && b != [] then Some(InjectedFrom(results[b], height)) else None))
  }

  lemma SuchCommitsExist(job: bytes, jobs: seq<bytes>, output: bytes)
    ensures HalfPresent(ByAddress([job], output), [Sent([1]), Sent([2]).(ext := [])], job, output)
    ensures Repeats(ByAddress([job, job, job], output), [Sent([1]), Sent([2]), Sent([3])], job, output)
    ensures Present(ByAddress(jobs, output), Sent([1])) && Lists(Read(ByAddress(jobs, output), Sent([1])), jobs, output)
  {
  }

  lemma SuchCodecsExist(results: map<bytes, Aggregated>, height: int64)
    requires forall job :: job in results ==> job != [] && results[job].jobID == job
    ensures TxLossless(CodecFor(results, height)) && AllEncode(CodecFor(results, height), results, height)
  {
  }
}
