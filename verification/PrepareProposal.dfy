/**
 The fallback branch of PrepareProposal in app/abci.go: aggregate the vote extensions of the last
 commit and put one injected transaction per consensus result in front of the mempool. An honest
 proposal is proved to pass the audit that every other validator runs on it.
 */
module PrepareProposal {
  import opened Encoding
  import opened VoteTypes
  import opened Aggregation
  import opened Cache
  import QuorumTally
  import Evidence

  /** NewInjectedVoteExtensionTx. */
  function InjectedFrom(a: Aggregated, height: int64): InjectedTx
  {
    InjectedTx(a.jobID, a.outputHash, a.validatorCount, a.totalVotes, a.agreementPower, a.totalPower,
               a.attestations, height, INJECTED_TYPE)
  }

  type Decoder = bytes -> Option<VoteExtension>

  /** The votes whose extension is present and decodes, with their power. */
  function Usable(dec: Decoder, votes: seq<ExtendedVote>): seq<Vote>
  {
    if votes == [] then []
    else
      var v := votes[|votes| - 1];
      Usable(dec, votes[..|votes| - 1]) +
      if v.ext == [] || dec(v.ext).None? then [] else [Vote(dec(v.ext), v.vote.power)]
  }

  /** txs starts with one transaction for each job in order (last of order first in time), each the
      encoding of that job's consensus result, and ends with the mempool. */
  ghost predicate Injects(codec: TxCodec, results: map<bytes, Aggregated>, height: int64, order: seq<bytes>,
                          mempool: seq<bytes>, txs: seq<bytes>)
  {
    && |txs| == |order| + |mempool| && txs[|order|..] == mempool
    && (forall i, j :: 0 <= i < j < |order| ==> order[i] != order[j])
    && (forall i :: 0 <= i < |order| ==>
          && order[i] in results && results[order[i]].hasConsensus
          && codec.json.enc(InjectedFrom(results[order[i]], height)) == Some(txs[i]))
  }

  predicate Carried(codec: TxCodec, a: Aggregated, height: int64)
  {
    a.hasConsensus && codec.json.enc(InjectedFrom(a, height)).Some?
  }

  /** Every consensus result that can be encoded is carried. */
  ghost predicate Complete(codec: TxCodec, results: map<bytes, Aggregated>, height: int64, order: seq<bytes>)
  {
    forall job :: job in results && Carried(codec, results[job], height) ==> job in order
  }

  method CollectVotes(dec: Decoder, votes: seq<ExtendedVote>) returns (extensions: seq<Vote>)
    ensures extensions == Usable(dec, votes)
  {
    extensions := [];
    for i := 0 to |votes|
      invariant extensions == Usable(dec, votes[..i])
    {
      assert votes[..i + 1][..i] == votes[..i];
      if |votes[i].ext| == 0 {
        continue;
      }
      var ext := dec(votes[i].ext);
      if ext.None? {
        continue;
      }
      extensions := extensions + [Vote(ext, votes[i].vote.power)];
    }
    assert votes[..|votes|] == votes;
  }

  lemma InjectsOne(codec: TxCodec, results: map<bytes, Aggregated>, height: int64, order: seq<bytes>,
                   mempool: seq<bytes>, txs: seq<bytes>, job: bytes, tx: bytes)
    requires Injects(codec, results, height, order, mempool, txs) && job !in order
    requires job in results && results[job].hasConsensus
    requires codec.json.enc(InjectedFrom(results[job], height)) == Some(tx)
    ensures Injects(codec, results, height, [job] + order, mempool, [tx] + txs)
  {
    assert ([tx] + txs)[|order| + 1..] == txs[|order|..];
  }

  method Fallback(codec: TxCodec, dec: Decoder, votes: seq<ExtendedVote>, mempool: seq<bytes>, threshold: int64,
                  allowSimulated: bool, blockTime: int, height: int64)
    returns (txs: seq<bytes>, ghost results: map<bytes, Aggregated>, ghost order: seq<bytes>)
    ensures IsAggregate(Usable(dec, votes), threshold, allowSimulated, blockTime, results)
    ensures Injects(codec, results, height, order, mempool, txs) && Complete(codec, results, height, order)
  {
    var extensions := CollectVotes(dec, votes);
    var aggregated := AggregateVoteExtensions(extensions, threshold, allowSimulated, blockTime);
    results := aggregated;
    txs, order := mempool, [];
    var left := aggregated.Keys;
    while left != {}
      invariant left <= aggregated.Keys && results == aggregated
      invariant Injects(codec, results, height, order, mempool, txs)
      invariant forall job :: job in order ==> job in results && job !in left
      invariant forall job :: job in results && job !in left && Carried(codec, results[job], height) ==> job in order
      decreases left
    {
      var job :| job in left;
      left := left - {job};
      if !aggregated[job].hasConsensus {
        continue;
      }
      var txBytes := codec.json.enc(InjectedFrom(aggregated[job], height));
      if txBytes.None? {
        continue;
      }
      InjectsOne(codec, results, height, order, mempool, txs, job, txBytes.value);
      txs := [txBytes.value] + txs;
      order := [job] + order;
    }
  }

  // ---------------------------------------------------------------- honest proposals

  /** A well-behaved extension: its successful entries name distinct, non-empty jobs and have
      32-byte outputs. */
  predicate WellBehaved(ext: VoteExtension)
  {
    && QuorumTally.OnePerJob(ext.verifications)
    && forall i :: 0 <= i < |ext.verifications| && ext.verifications[i].success ==>
         ext.verifications[i].jobID != [] && |ext.verifications[i].outputHash| == 32
  }

  predicate AllWellBehaved(dec: Decoder, votes: seq<ExtendedVote>)
  {
    forall i :: 0 <= i < |votes| ==>
      votes[i].ext != [] && dec(votes[i].ext).Some? && WellBehaved(dec(votes[i].ext).value)
  }

  function Commit(votes: seq<ExtendedVote>): (r: seq<CommitVote>)
    ensures |r| == |votes|
  {
    seq(|votes|, i requires 0 <= i < |votes| => votes[i].vote)
  }

  predicate VoteWellBehaved(v: Vote)
  {
    v.ext.Some? && WellBehaved(v.ext.value)
  }

  /** When every extension is usable, the aggregation sees every vote and the commit's power. */
  lemma {:induction false} AllUsable(dec: Decoder, votes: seq<ExtendedVote>)
    requires AllWellBehaved(dec, votes)
    ensures |Usable(dec, votes)| == |votes|
    ensures forall i :: 0 <= i < |votes| ==> VoteWellBehaved(Usable(dec, votes)[i])
    ensures TotalPower(Usable(dec, votes)) == Evidence.SumPower(Commit(votes))
  {
    if votes != [] {
      var n := |votes| - 1;
      AllUsable(dec, votes[..n]);
      var front := Usable(dec, votes[..n]);
      var v := Vote(dec(votes[n].ext), votes[n].vote.power);
      assert Usable(dec, votes) == front + [v];
      assert (front + [v])[..n] == front;
      assert Commit(votes)[..n] == Commit(votes[..n]);
    }
  }

  lemma UsableRegular(us: seq<Vote>)
    requires forall i :: 0 <= i < |us| ==> VoteWellBehaved(us[i])
    ensures QuorumTally.Regular(us)
  {
    forall i | 0 <= i < |us| && us[i].ext.Some?
      ensures QuorumTally.OnePerJob(us[i].ext.value.verifications)
    {
      assert VoteWellBehaved(us[i]);
    }
  }

  /** A tallied output of a well-behaved vote is 32 bytes of a named job. */
  lemma TalliedIsNamed(us: seq<Vote>, fallback: bool, job: bytes, key: bytes)
    requires forall i :: 0 <= i < |us| ==> VoteWellBehaved(us[i])
    requires HasKey(Entries(us, fallback), job, key)
    ensures job != [] && |Unhexed(key)| == 32
  {
    QuorumTally.TalliedKeys(us, fallback, job, key);
    var i :| 0 <= i < |us| && QuorumTally.Backs(us[i], job, key);
    assert VoteWellBehaved(us[i]);
    var vs := us[i].ext.value.verifications;
    var k :| 0 <= k < |vs| && QuorumTally.Reporting(vs[k], job, key);
    HexRoundTrip(vs[k].outputHash);
  }

  lemma SamePower(total: int64, threshold: int64)
    requires total > 0 && threshold >= 67 && Evidence.NoOverflow(total, threshold)
    ensures Required(total, threshold) == Evidence.RequiredPower(total, threshold) > 0
  {
    MulMono(total, 0, threshold);
  }

  /** The aggregation and the audit ask for the same power. */
  lemma SameRequirement(us: seq<Vote>, threshold: int64, allowSimulated: bool)
    requires TotalPower(us) > 0 && threshold >= 67 && Evidence.NoOverflow(TotalPower(us), threshold)
    ensures TotalPower(us) < TWO_63
    ensures SetupOf(us, threshold, allowSimulated)
         == Setup(TotalPower(us), false, Evidence.RequiredPower(TotalPower(us), threshold))
    ensures Evidence.RequiredPower(TotalPower(us), threshold) > 0
  {
    Evidence.SumBounded(TotalPower(us), threshold);
    SamePower(TotalPower(us), threshold);
  }

  lemma WinnerKey(us: seq<Vote>, s: Setup, blockTime: int, job: bytes, a: Aggregated) returns (key: bytes)
    requires s.Setup? && HasJob(Entries(us, s.fallback), job)
    requires JobOutcome(Entries(us, s.fallback), |us|, s, blockTime, job, a) && a.hasConsensus
    ensures var es := Entries(us, s.fallback);
      && Reaches(es, s.required, job, key)
      && a.jobID == job && a.outputHash == Unhexed(key) && a.validatorCount == |Atts(es, job, key)|
      && a.attestations == Atts(es, job, key) && a.agreementPower == Wrap64(Power(es, job, key))
      && a.totalVotes == |us| && a.totalPower == s.total && a.agreementPower >= s.required
  {
    var es := Entries(us, s.fallback);
    FirstJob(es, job);
    key :| Reaches(es, s.required, job, key)
           && a == Won(Initial(First(es, job), |us|, s.total), es, key, blockTime);
  }

  /** Each consensus result of well-behaved votes makes a well-formed claim that matches the commit. */
  lemma ResultPasses(us: seq<Vote>, commit: seq<CommitVote>, threshold: int64, allowSimulated: bool, blockTime: int,
                     results: map<bytes, Aggregated>, job: bytes, height: int64)
    requires forall i :: 0 <= i < |us| ==> VoteWellBehaved(us[i])
    requires |us| == |commit| && TotalPower(us) == Evidence.SumPower(commit) > 0
    requires threshold >= 67 && Evidence.NoOverflow(Evidence.SumPower(commit), threshold)
    requires IsAggregate(us, threshold, allowSimulated, blockTime, results)
    requires job in results && results[job].hasConsensus
    ensures var tx := InjectedFrom(results[job], height);
      Evidence.WellFormed(tx) && Evidence.MatchesCommit(tx, commit, threshold) && tx.jobID == job
  {
    SameRequirement(us, threshold, allowSimulated);
    var s := SetupOf(us, threshold, allowSimulated);
    var key := WinnerKey(us, s, blockTime, job, results[job]);
    TalliedIsNamed(us, s.fallback, job, key);
    UsableRegular(us);
    QuorumTally.AttestationsAreBackers(us, s.fallback, job, key);
    QuorumTally.BackersBound(us, job, key);
  }

  /** The transaction for each job in order makes a well-formed claim that matches the commit. */
  ghost predicate ClaimsMatch(results: map<bytes, Aggregated>, height: int64, order: seq<bytes>,
                              commit: seq<CommitVote>, threshold: int64)
  {
    forall i :: 0 <= i < |order| ==>
      && order[i] in results
      && var tx := InjectedFrom(results[order[i]], height);
         Evidence.WellFormed(tx) && Evidence.MatchesCommit(tx, commit, threshold) && tx.jobID == order[i]
  }

  lemma MempoolNotInjected(codec: TxCodec, results: map<bytes, Aggregated>, height: int64, order: seq<bytes>,
                           mempool: seq<bytes>, txs: seq<bytes>)
    requires forall i :: 0 <= i < |mempool| ==> !IsInjected(codec, mempool[i])
    requires Injects(codec, results, height, order, mempool, txs)
    ensures forall i :: |order| <= i < |txs| ==> !IsInjected(codec, txs[i])
  {
    forall i | |order| <= i < |txs|
      ensures !IsInjected(codec, txs[i])
    {
      assert txs[i] == mempool[i - |order|];
    }
  }

  lemma EncodedParses(codec: TxCodec, tx: InjectedTx, data: bytes)
    requires TxLossless(codec) && Evidence.WellFormed(tx) && codec.json.enc(tx) == Some(data)
    ensures IsInjected(codec, data) && Evidence.Parse(codec, data) == Some(tx)
  {
  }

  /** A proposal whose claims match the commit gives an audit without issues. */
  lemma {:induction false} CarriedPass(codec: TxCodec, mempool: seq<bytes>, threshold: int64, height: int64,
                                       commit: seq<CommitVote>, results: map<bytes, Aggregated>, order: seq<bytes>,
                                       txs: seq<bytes>)
    requires TxLossless(codec) && ClaimsMatch(results, height, order, commit, threshold)
    requires forall i :: 0 <= i < |mempool| ==> !IsInjected(codec, mempool[i])
    requires Injects(codec, results, height, order, mempool, txs)
    ensures Evidence.AllIssues(codec, txs, commit, threshold) == []
  {
    MempoolNotInjected(codec, results, height, order, mempool, txs);
    forall i | 0 <= i < |order|
      ensures Evidence.ParsedAt(codec, txs, i) && Evidence.JobAt(codec, txs, i) == order[i]
      ensures Evidence.MatchesCommit(Evidence.Parse(codec, txs[i]).value, commit, threshold)
    {
      EncodedParses(codec, InjectedFrom(results[order[i]], height), txs[i]);
    }
    assert Evidence.SoundProposal(codec, txs, commit, threshold);
    Evidence.AuditPassesIffSound(codec, txs, commit, threshold);
  }

  /** The results of an honest aggregation all make claims that match the commit. */
  lemma HonestClaimsMatch(codec: TxCodec, dec: Decoder, votes: seq<ExtendedVote>, mempool: seq<bytes>, threshold: int64,
                          allowSimulated: bool, blockTime: int, height: int64,
                          results: map<bytes, Aggregated>, order: seq<bytes>, txs: seq<bytes>)
    requires AllWellBehaved(dec, votes)
    requires Evidence.SumPower(Commit(votes)) > 0 && threshold >= 67
    requires Evidence.NoOverflow(Evidence.SumPower(Commit(votes)), threshold)
    requires IsAggregate(Usable(dec, votes), threshold, allowSimulated, blockTime, results)
    requires Injects(codec, results, height, order, mempool, txs)
    ensures ClaimsMatch(results, height, order, Commit(votes), threshold)
  {
    AllUsable(dec, votes);
    forall i | 0 <= i < |order|
      ensures var tx := InjectedFrom(results[order[i]], height);
        Evidence.WellFormed(tx) && Evidence.MatchesCommit(tx, Commit(votes), threshold) && tx.jobID == order[i]
    {
      ResultPasses(Usable(dec, votes), Commit(votes), threshold, allowSimulated, blockTime, results, order[i], height);
    }
  }

  /** An honest fallback proposal gives an audit without issues. */
  lemma {:induction false} HonestProposalPasses(codec: TxCodec, dec: Decoder, votes: seq<ExtendedVote>,
                                                mempool: seq<bytes>, threshold: int64, allowSimulated: bool,
                                                blockTime: int, height: int64, results: map<bytes, Aggregated>,
                                                order: seq<bytes>, txs: seq<bytes>)
    requires TxLossless(codec) && AllWellBehaved(dec, votes)
    requires Evidence.SumPower(Commit(votes)) > 0 && threshold >= 67
    requires Evidence.NoOverflow(Evidence.SumPower(Commit(votes)), threshold)
    requires forall i :: 0 <= i < |mempool| ==> !IsInjected(codec, mempool[i])
    requires IsAggregate(Usable(dec, votes), threshold, allowSimulated, blockTime, results)
    requires Injects(codec, results, height, order, mempool, txs)
    ensures Evidence.AllIssues(codec, txs, Commit(votes), threshold) == []
  {
    HonestClaimsMatch(codec, dec, votes, mempool, threshold, allowSimulated, blockTime, height, results, order, txs);
    CarriedPass(codec, mempool, threshold, height, Commit(votes), results, order, txs);
  }

  /** What the transaction claims for its job and output is what the votes say: the power and number of the
      votes behind the output, with their attestations in order, out of all votes. */
  predicate Truthful(us: seq<Vote>, tx: InjectedTx, height: int64)
  {
    var key := Hex(tx.outputHash);
    && tx.agreementPower == Wrap64(QuorumTally.Sum(us, QuorumTally.BackingWeight(tx.jobID, key, false)))
    && tx.validatorCount == |tx.attestations| == |QuorumTally.Backers(us, tx.jobID, key)|
    && (forall k :: 0 <= k < |tx.attestations| ==>
          QuorumTally.AttestedBy(tx.attestations[k], QuorumTally.Backers(us, tx.jobID, key)[k], tx.jobID, key)
          && tx.attestations[k].outputHash == tx.outputHash)
    && tx.totalVotes == |us| && tx.totalPower == TotalPower(us) && tx.blockHeight == height
  }

  lemma ResultTruthful(us: seq<Vote>, threshold: int64, allowSimulated: bool, blockTime: int,
                       results: map<bytes, Aggregated>, job: bytes, height: int64)
    requires forall i :: 0 <= i < |us| ==> VoteWellBehaved(us[i])
    requires TotalPower(us) > 0 && threshold >= 67 && Evidence.NoOverflow(TotalPower(us), threshold)
    requires IsAggregate(us, threshold, allowSimulated, blockTime, results)
    requires job in results && results[job].hasConsensus
    ensures Truthful(us, InjectedFrom(results[job], height), height)
  {
    SameRequirement(us, threshold, allowSimulated);
    var s := SetupOf(us, threshold, allowSimulated);
    var key := WinnerKey(us, s, blockTime, job, results[job]);
    UsableRegular(us);
    QuorumTally.RegularUnrepeated(us);
    QuorumTally.KeyIsHex(us, false, job, key);
    QuorumTally.TallyCountsVotes(us, false, job, key);
    QuorumTally.AttestationsAreBackers(us, false, job, key);
    forall k | 0 <= k < |results[job].attestations|
      ensures results[job].attestations[k].outputHash == results[job].outputHash
    {
      QuorumTally.AttestedOutput(results[job].attestations[k], QuorumTally.Backers(us, job, key)[k], job, key);
    }
  }

  lemma BackingFits(us: seq<Vote>, job: bytes, key: bytes)
    requires QuorumTally.NonNegative(us) && TotalPower(us) < TWO_63
    ensures var f := QuorumTally.BackingWeight(job, key, false);
      Wrap64(QuorumTally.Sum(us, f)) == QuorumTally.Sum(us, f)
  {
    var f := QuorumTally.BackingWeight(job, key, false);
    QuorumTally.SumLe(us, f, QuorumTally.WeightOf(false));
    QuorumTally.SumNonNegative(us, f);
    QuorumTally.TotalIsSum(us);
  }

  /** Under the same conditions every transaction of an honest proposal, as any validator decodes it, tells the
      truth about its job: its agreement power is that of exactly the votes that report its output, more than
      two thirds of the commit. */
  lemma {:induction false} HonestProposalTellsTruth(codec: TxCodec, dec: Decoder, votes: seq<ExtendedVote>,
                                                    mempool: seq<bytes>, threshold: int64, allowSimulated: bool,
                                                    blockTime: int, height: int64, results: map<bytes, Aggregated>,
                                                    order: seq<bytes>, txs: seq<bytes>, i: nat)
    requires TxLossless(codec) && AllWellBehaved(dec, votes)
    requires Evidence.SumPower(Commit(votes)) > 0 && threshold >= 67
    requires Evidence.NoOverflow(Evidence.SumPower(Commit(votes)), threshold)
    requires IsAggregate(Usable(dec, votes), threshold, allowSimulated, blockTime, results)
    requires Injects(codec, results, height, order, mempool, txs) && i < |order|
    ensures codec.json.dec(txs[i]).Some?
    ensures var tx, us := codec.json.dec(txs[i]).value, Usable(dec, votes);
      && tx.jobID == order[i] && Truthful(us, tx, height)
      && 3 * tx.agreementPower > 2 * Evidence.SumPower(Commit(votes))
      && (QuorumTally.NonNegative(us) ==>
            tx.agreementPower == QuorumTally.Sum(us, QuorumTally.BackingWeight(tx.jobID, Hex(tx.outputHash), false)))
  {
    var us := Usable(dec, votes);
    AllUsable(dec, votes);
    HonestClaimsMatch(codec, dec, votes, mempool, threshold, allowSimulated, blockTime, height, results, order, txs);
    ResultTruthful(us, threshold, allowSimulated, blockTime, results, order[i], height);
    var tx := InjectedFrom(results[order[i]], height);
    assert codec.json.dec(txs[i]) == Some(tx);
    Evidence.SumBounded(TotalPower(us), threshold);
    Evidence.MoreThanTwoThirds(TotalPower(us), threshold, tx.agreementPower);
    if QuorumTally.NonNegative(us) {
      BackingFits(us, tx.jobID, Hex(tx.outputHash));
    }
  }

  predicate Present(dec: Decoder, v: ExtendedVote)
  {
    v.ext != [] && dec(v.ext).Some?
  }

  lemma {:induction false} UsableCount(dec: Decoder, votes: seq<ExtendedVote>)
    ensures |Usable(dec, votes)| <= |votes|
    ensures |Usable(dec, votes)| == |votes| <==> forall i :: 0 <= i < |votes| ==> Present(dec, votes[i])
  {
    if votes != [] {
      var front := votes[..|votes| - 1];
      UsableCount(dec, front);
      assert forall i :: 0 <= i < |front| ==> front[i] == votes[i];
    }
  }

  /** With a commit vote left out of the aggregation, a proposal that carries anything fails. */
  lemma {:induction false} PartialProposalFails(codec: TxCodec, dec: Decoder, votes: seq<ExtendedVote>,
                                                mempool: seq<bytes>, threshold: int64, allowSimulated: bool,
                                                blockTime: int, height: int64, results: map<bytes, Aggregated>,
                                                order: seq<bytes>, txs: seq<bytes>)
    requires TxLossless(codec) && |Usable(dec, votes)| < |votes| && order != []
    requires IsAggregate(Usable(dec, votes), threshold, allowSimulated, blockTime, results)
    requires Injects(codec, results, height, order, mempool, txs)
    ensures Evidence.AllIssues(codec, txs, Commit(votes), threshold) != []
  {
    var us := Usable(dec, votes);
    var s := SetupOf(us, threshold, allowSimulated);
    var key := WinnerKey(us, s, blockTime, order[0], results[order[0]]);
    assert IsInjected(codec, txs[0]);
    assert !Evidence.SoundProposal(codec, txs, Commit(votes), threshold);
    Evidence.AuditPassesIffSound(codec, txs, Commit(votes), threshold);
  }

  /** A fallback proposal that carries a result passes exactly when no commit vote lacks a usable
      extension. */
  lemma {:induction false} PassesIffAllPresent(codec: TxCodec, dec: Decoder, votes: seq<ExtendedVote>,
                                               mempool: seq<bytes>, threshold: int64, allowSimulated: bool,
                                               blockTime: int, height: int64, results: map<bytes, Aggregated>,
                                               order: seq<bytes>, txs: seq<bytes>)
    requires TxLossless(codec) && order != []
    requires forall i :: 0 <= i < |votes| && Present(dec, votes[i]) ==> WellBehaved(dec(votes[i].ext).value)
    requires Evidence.SumPower(Commit(votes)) > 0 && threshold >= 67
    requires Evidence.NoOverflow(Evidence.SumPower(Commit(votes)), threshold)
    requires forall i :: 0 <= i < |mempool| ==> !IsInjected(codec, mempool[i])
    requires IsAggregate(Usable(dec, votes), threshold, allowSimulated, blockTime, results)
    requires Injects(codec, results, height, order, mempool, txs)
    ensures Evidence.AllIssues(codec, txs, Commit(votes), threshold) == []
       <==> forall i :: 0 <= i < |votes| ==> Present(dec, votes[i])
  {
    UsableCount(dec, votes);
    if |Usable(dec, votes)| < |votes| {
      PartialProposalFails(codec, dec, votes, mempool, threshold, allowSimulated, blockTime, height,
                           results, order, txs);
    } else {
      HonestProposalPasses(codec, dec, votes, mempool, threshold, allowSimulated, blockTime, height,
                           results, order, txs);
    }
  }
}
