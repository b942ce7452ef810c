/**
 The ProcessProposal decision of app/abci.go. The keeper's aggregation and its seal validation, the
 job store and the module parameters are taken as given.
 */
module ProcessProposal {
  import opened Encoding
  import opened VoteTypes
  import opened Evidence
  import opened Finality
  import opened Cache

  /** The keeper files every result under its own JobID. */
  type KeyedResults = r: Results | KeyedByJob(r) witness map[]

  datatype Handler = Handler(validateSeal: bytes -> bool, aggregate: seq<ExtendedVote> -> KeyedResults)

  datatype Params = Params(threshold: int64, allowSimulated: bool)

  datatype App = App(
    codec: TxCodec,
    productionBuild: bool,
    params: Option<Params>,
    handler: Option<Handler>,
    jobExists: bytes -> bool)

  datatype Proposal = Proposal(height: int64, txs: seq<bytes>, commit: seq<CommitVote>)

  /** What a cache holds; None is no cache. */
  datatype View = View(byHeight: Heights, chainID: bytes)

  const MAX_INJECTED: nat := 50
  const MAX_BYTES: nat := 5 * 1024 * 1024

  /** getConsensusThreshold: never below 67. */
  function Threshold(app: App): (t: int64)
    ensures t >= 67
  {
    if app.params.Some? && app.params.value.threshold >= 67 then app.params.value.threshold else 67
  }

  predicate AllowSimulated(app: App)
  {
    !app.productionBuild && app.params.Some? && app.params.value.allowSimulated
  }

  predicate Production(app: App)
  {
    app.productionBuild || !AllowSimulated(app)
  }

  /** Ceiling division of totalVotes * threshold by 100, with int64 wrap-around. */
  function RequiredVotes(totalVotes: int, threshold: int64): int
  {
    TruncDiv(Wrap64(totalVotes * threshold + 99), 100)
  }

  /** validateConsensusEvidenceThreshold: true when it returns nil. */
  predicate ThresholdMet(tx: InjectedTx, threshold: int64, allowVoteFallback: bool)
  {
    if tx.totalPower > 0 then tx.agreementPower >= RequiredPower(tx.totalPower, threshold)
    else allowVoteFallback && tx.validatorCount >= RequiredVotes(tx.totalVotes, threshold)
  }

  lemma Ceiling(p: nat, votes: int)
    ensures votes >= (p + 99) / 100 <==> 100 * votes >= p
  {
  }

  /** The vote requirement is the least whole number of votes that is at least the percentage. */
  lemma {:induction false} RequiredVotesIsCeiling(totalVotes: nat, threshold: int64, votes: int)
    requires threshold >= 0 && totalVotes * threshold + 99 < TWO_63
    ensures votes >= RequiredVotes(totalVotes, threshold) <==> 100 * votes >= totalVotes * threshold
  {
    MulMono(totalVotes, 0, threshold);
    Ceiling(totalVotes * threshold, votes);
  }

  /** validateInjectedTx: true when it returns nil. */
  predicate InjectedTxOk(app: App, tx: InjectedTx)
  {
    WellFormed(tx) && app.jobExists(tx.jobID) && ThresholdMet(tx, Threshold(app), AllowSimulated(app))
  }

  /** The per-transaction check of an injected transaction. */
  predicate TxOk(app: App, txBytes: bytes)
  {
    match app.handler
    case Some(h) => h.validateSeal(txBytes)
    case None =>
      var tx := app.codec.json.dec(txBytes);
      tx.Some? && InjectedTxOk(app, tx.value)
  }

  function TotalBytes(txs: seq<bytes>): nat
  {
    if txs == [] then 0 else TotalBytes(txs[..|txs| - 1]) + |txs[|txs| - 1]|
  }

  lemma {:induction false} TotalBytesAdds(x: seq<bytes>, y: seq<bytes>)
    ensures TotalBytes(x + y) == TotalBytes(x) + TotalBytes(y)
    ensures |y| == 1 ==> TotalBytes(y) == |y[0]|
  {
    if y == [] {
      assert x + y == x;
    } else {
      var n := |y| - 1;
      TotalBytesAdds(x, y[..n]);
      assert (x + y)[..|x + y| - 1] == x + y[..n];
    }
  }

  /** validateInjectedTx in plain arithmetic: a well-formed transaction for a known job passes exactly when its
      power is strictly beyond the percentage or, without any power and only where simulation is allowed, its
      votes are at least the percentage. */
  lemma {:induction false} InjectedTxOkIff(app: App, tx: InjectedTx)
    requires WellFormed(tx) && NoOverflow(tx.totalPower, Threshold(app))
    requires tx.totalVotes * Threshold(app) + 99 < TWO_63
    ensures var t := if app.params.Some? && app.params.value.threshold >= 67 then app.params.value.threshold else 67;
      InjectedTxOk(app, tx) <==>
        && app.jobExists(tx.jobID)
        && if tx.totalPower > 0 then 100 * tx.agreementPower > tx.totalPower * t
           else (!app.productionBuild && app.params.Some? && app.params.value.allowSimulated)
                && 100 * tx.validatorCount >= tx.totalVotes * t
  {
    if tx.totalPower > 0 {
      QuorumIff(tx.totalPower, Threshold(app), tx.agreementPower);
    } else {
      RequiredVotesIsCeiling(tx.totalVotes, Threshold(app), tx.validatorCount);
    }
  }

  // ---------------------------------------------------------------- evidence power

  function EvidenceSum(votes: seq<ExtendedVote>): int
  {
    if votes == [] then 0
    else
      var v := votes[|votes| - 1];
      EvidenceSum(votes[..|votes| - 1]) + if v.ext != [] then v.vote.power else 0
  }

  function PowerSum(votes: seq<ExtendedVote>): int
  {
    if votes == [] then 0 else PowerSum(votes[..|votes| - 1]) + votes[|votes| - 1].vote.power
  }

  /** voteExtensionEvidencePower. */
  method EvidencePower(votes: seq<ExtendedVote>) returns (evidence: int64, total: int64)
    ensures evidence == Wrap64(EvidenceSum(votes)) && total == Wrap64(PowerSum(votes))
  {
    evidence, total := 0, 0;
    for i := 0 to |votes|
      invariant evidence == Wrap64(EvidenceSum(votes[..i])) && total == Wrap64(PowerSum(votes[..i]))
    {
      assert votes[..i + 1][..i] == votes[..i];
      WrapAdd(PowerSum(votes[..i]), votes[i].vote.power);
      WrapAdd(EvidenceSum(votes[..i]), votes[i].vote.power);
      total := Wrap64(total + votes[i].vote.power);
      if |votes[i].ext| > 0 {
        evidence := Wrap64(evidence + votes[i].vote.power);
      }
    }
    assert votes[..|votes|] == votes;
  }

  /** Extending the commit's votes from the cache keeps their order, number and power. */
  lemma {:induction false} ExtensionKeepsPower(m: Heights, chainID: bytes, height: int64, votes: seq<CommitVote>)
    ensures var e := Extended(m, chainID, height, votes);
      |e| == |votes| && (forall i :: 0 <= i < |votes| ==> e[i].vote == votes[i]) && PowerSum(e) == SumPower(votes)
  {
    if votes != [] {
      var n := |votes| - 1;
      ExtensionKeepsPower(m, chainID, height, votes[..n]);
      assert Extended(m, chainID, height, votes)[..n] == Extended(m, chainID, height, votes[..n]);
    }
  }

  /** Evidence power lies between zero and the total, also as the code holds it. */
  lemma {:induction false} EvidenceBounded(votes: seq<ExtendedVote>)
    requires forall i :: 0 <= i < |votes| ==> votes[i].vote.power >= 0
    ensures 0 <= EvidenceSum(votes) <= PowerSum(votes)
    ensures PowerSum(votes) < TWO_63 ==> 0 <= Wrap64(EvidenceSum(votes)) <= Wrap64(PowerSum(votes)) == PowerSum(votes)
  {
    if votes != [] {
      EvidenceBounded(votes[..|votes| - 1]);
    }
  }

  // ---------------------------------------------------------------- the decision

  /** The cached extensions of the commit back a quorum of its power. */
  predicate EvidenceQuorum(votes: seq<ExtendedVote>, threshold: int64)
  {
    var total := Wrap64(PowerSum(votes));
    total > 0 && Wrap64(EvidenceSum(votes)) >= RequiredPower(total, threshold)
  }

  /** There is such a quorum exactly when there is power, and the votes with an extension hold strictly more than
      the threshold of it. */
  lemma {:induction false} EvidenceQuorumIff(votes: seq<ExtendedVote>, threshold: int64)
    requires forall i :: 0 <= i < |votes| ==> votes[i].vote.power >= 0
    requires PowerSum(votes) < TWO_63 && NoOverflow(PowerSum(votes), threshold)
    ensures EvidenceQuorum(votes, threshold) <==>
      PowerSum(votes) > 0 && 100 * EvidenceSum(votes) > PowerSum(votes) * (if threshold < 67 then 67 else threshold)
  {
    EvidenceBounded(votes);
    if PowerSum(votes) > 0 {
      QuorumIff(PowerSum(votes), threshold, EvidenceSum(votes));
    }
  }

  /** The cross-check against the cache, made only when the cache has an entry for the commit. */
  predicate CacheConsistent(app: App, h: Handler, view: View, req: Proposal)
  {
    var last := Wrap64(req.height - 1);
    FoundCount(view.byHeight, view.chainID, last, req.commit) > 0 ==>
      var votes := Extended(view.byHeight, view.chainID, last, req.commit);
      && (InjectedCount(app.codec, req.txs) > 0 ==> EvidenceQuorum(votes, Threshold(app)))
      && ExactMatch(app.codec, h.aggregate(votes), req.txs, Threshold(app))
  }

  /** Everything that is checked against chain state alone. */
  predicate ChainAccepts(app: App, req: Proposal)
  {
    && AllIssues(app.codec, req.txs, req.commit, Threshold(app)) == []
    && InjectedCount(app.codec, req.txs) <= MAX_INJECTED
    && TotalBytes(req.txs) <= MAX_BYTES
    && forall i :: 0 <= i < |req.txs| && IsInjected(app.codec, req.txs[i]) ==> TxOk(app, req.txs[i])
  }

  predicate Accepts(app: App, view: Option<View>, req: Proposal)
  {
    && (Production(app) ==> app.handler.Some? && view.Some?)
    && ChainAccepts(app, req)
    && (Production(app) ==> CacheConsistent(app, app.handler.value, view.value, req))
  }

  function ViewOf(cache: VoteExtensionCache?): Option<View>
    reads cache
  {
    if cache == null then None else Some(View(cache.byHeight, cache.chainID))
  }

  method CountInjected(codec: TxCodec, txs: seq<bytes>) returns (count: nat, total: nat)
    ensures count == InjectedCount(codec, txs) && total == TotalBytes(txs)
  {
    count, total := 0, 0;
    for i := 0 to |txs|
      invariant count == InjectedCount(codec, txs[..i]) && total == TotalBytes(txs[..i])
    {
      assert txs[..i + 1][..i] == txs[..i];
      if IsInjected(codec, txs[i]) {
        count := count + 1;
      }
      total := total + |txs[i]|;
    }
    assert txs[..|txs|] == txs;
  }

  method CheckTxs(app: App, txs: seq<bytes>) returns (ok: bool)
    ensures ok <==> forall i :: 0 <= i < |txs| && IsInjected(app.codec, txs[i]) ==> TxOk(app, txs[i])
  {
    for i := 0 to |txs|
      invariant forall j :: 0 <= j < i && IsInjected(app.codec, txs[j]) ==> TxOk(app, txs[j])
    {
      if IsInjected(app.codec, txs[i]) && !TxOk(app, txs[i]) {
        return false;
      }
    }
    return true;
  }

  /** The finality enforcement of production mode. */
  method CheckCache(app: App, h: Handler, cache: VoteExtensionCache, req: Proposal) returns (ok: bool)
    ensures ok <==> CacheConsistent(app, h, View(cache.byHeight, cache.chainID), req)
  {
    var lastHeight := Wrap64(req.height - 1);
    var extendedVotes, found := BuildExtendedVotes(cache, lastHeight, req.commit);
    var injectedTxCount, _ := CountInjected(app.codec, req.txs);
    if found > 0 && injectedTxCount > 0 {
      var evidencePower, totalPower := EvidencePower(extendedVotes);
      var required := RequiredPower(totalPower, Threshold(app));
      if totalPower <= 0 || evidencePower < required {
        return false;
      }
    }
    if found > 0 {
      var results := h.aggregate(extendedVotes);
      ghost var jobs;
      ok, jobs := ValidateComputationFinality(app.codec, results, req.txs, Threshold(app));
      return;
    }
    return true;
  }

  /** ProcessProposal: true is ACCEPT. */
  method Process(app: App, cache: VoteExtensionCache?, req: Proposal) returns (accept: bool)
    ensures accept <==> Accepts(app, ViewOf(cache), req)
  {
    var production := Production(app);
    if production {
      if app.handler.None? {
        return false;
      }
      if cache == null {
        return false;
      }
    }
    var audit := AuditProposal(app.codec, req.txs, req.commit, Threshold(app));
    if !Passed(audit) {
      return false;
    }
    var injected, total := CountInjected(app.codec, req.txs);
    if injected > MAX_INJECTED {
      return false;
    }
    if total > MAX_BYTES {
      return false;
    }
    var txsOk := CheckTxs(app, req.txs);
    if !txsOk {
      return false;
    }
    if production {
      accept := CheckCache(app, app.handler.value, cache, req);
      return;
    }
    return true;
  }

  // ---------------------------------------------------------------- guarantees

  /** Every accepted proposal has at most 50 injected transactions and 5 MB, no two for one job, and each
      claims strictly more than the chain's percentage, at least two thirds, of the commit's real power. */
  lemma {:induction false} AcceptedClaimsQuorum(app: App, view: Option<View>, req: Proposal)
    requires Accepts(app, view, req)
    requires Evidence.NonNegative(req.commit) && NoOverflow(SumPower(req.commit), Threshold(app))
    ensures InjectedCount(app.codec, req.txs) <= 50 && TotalBytes(req.txs) <= 5_242_880
    ensures SoundProposal(app.codec, req.txs, req.commit, Threshold(app))
    ensures forall i :: 0 <= i < |req.txs| && IsInjected(app.codec, req.txs[i]) ==>
      && Parse(app.codec, req.txs[i]).Some?
      && var power := Parse(app.codec, req.txs[i]).value.agreementPower;
         && 3 * power > 2 * SumPower(req.commit) > 0
         && (app.params.Some? ==> 100 * power > SumPower(req.commit) * app.params.value.threshold)
  {
    AuditPassesIffSound(app.codec, req.txs, req.commit, Threshold(app));
    forall i | 0 <= i < |req.txs| && IsInjected(app.codec, req.txs[i])
      ensures Parse(app.codec, req.txs[i]).Some?
      ensures var power := Parse(app.codec, req.txs[i]).value.agreementPower;
        && 3 * power > 2 * SumPower(req.commit) > 0
        && (app.params.Some? ==> 100 * power > SumPower(req.commit) * app.params.value.threshold)
    {
      PassedClaimsQuorum(app.codec, req.txs, req.commit, Threshold(app), i);
      var power := Parse(app.codec, req.txs[i]).value.agreementPower;
      SumBounded(SumPower(req.commit), Threshold(app));
      QuorumIff(SumPower(req.commit), Threshold(app), power);
      if app.params.Some? {
        MulMono(SumPower(req.commit), app.params.value.threshold, Threshold(app));
      }
    }
  }

  /** A node with a keeper accepts only what the keeper's seal validation accepts. A production build, and any
      node whose chain does not allow simulation, accepts nothing without a keeper and a cache. */
  lemma {:induction false} AcceptedWasValidated(app: App, view: Option<View>, req: Proposal)
    requires Accepts(app, view, req)
    ensures app.handler.Some? ==>
      forall i :: 0 <= i < |req.txs| && IsInjected(app.codec, req.txs[i]) ==> app.handler.value.validateSeal(req.txs[i])
    ensures app.handler.None? ==>
      forall i :: 0 <= i < |req.txs| && IsInjected(app.codec, req.txs[i]) ==>
        && app.codec.json.dec(req.txs[i]).Some?
        && app.jobExists(app.codec.json.dec(req.txs[i]).value.jobID)
    ensures app.productionBuild || app.params.None? || !app.params.value.allowSimulated ==>
      app.handler.Some? && view.Some?
  {
    if app.handler.Some? {
      forall i | 0 <= i < |req.txs| && IsInjected(app.codec, req.txs[i])
        ensures app.handler.value.validateSeal(req.txs[i])
      {
        assert TxOk(app, req.txs[i]);
      }
    } else {
      forall i | 0 <= i < |req.txs| && IsInjected(app.codec, req.txs[i])
        ensures app.codec.json.dec(req.txs[i]).Some? && app.jobExists(app.codec.json.dec(req.txs[i]).value.jobID)
      {
        assert TxOk(app, req.txs[i]);
      }
    }
  }

  /** Two quorums accepted at one commit share more than a third of its power: if two transactions'
      agreement powers are the powers of sets of votes, the sets overlap by more than a third. */
  lemma {:induction false} AcceptedQuorumsMeet(app: App, v: Option<View>, w: Option<View>, p: Proposal, q: Proposal,
                                               i: nat, j: nat, a: set<nat>, b: set<nat>)
    requires Accepts(app, v, p) && Accepts(app, w, q) && p.commit == q.commit
    requires Evidence.NonNegative(p.commit) && NoOverflow(SumPower(p.commit), Threshold(app))
    requires i < |p.txs| && IsInjected(app.codec, p.txs[i]) && j < |q.txs| && IsInjected(app.codec, q.txs[j])
    requires Parse(app.codec, p.txs[i]).Some? && Parse(app.codec, p.txs[i]).value.agreementPower == PowerOf(p.commit, a)
    requires Parse(app.codec, q.txs[j]).Some? && Parse(app.codec, q.txs[j]).value.agreementPower == PowerOf(q.commit, b)
    ensures 3 * PowerOf(p.commit, a * b) > SumPower(p.commit)
  {
    AcceptedClaimsQuorum(app, v, p);
    AcceptedClaimsQuorum(app, w, q);
    InclusionExclusion(p.commit, a, b);
  }

  /** The cache a restart leaves: the same chain, nothing in it. */
  function Restarted(view: View): View
  {
    View(map[], view.chainID)
  }

  /** A restart never turns an acceptance into a rejection: what is accepted with any cache is
      accepted with the empty one, whose verdict is that of the chain state alone. */
  lemma {:induction false} RestartSafe(app: App, view: View, req: Proposal)
    ensures Accepts(app, Some(view), req) ==> Accepts(app, Some(Restarted(view)), req)
    ensures Accepts(app, Some(Restarted(view)), req)
       <==> (Production(app) ==> app.handler.Some?) && ChainAccepts(app, req)
  {
    EmptyFindsNothing(view.chainID, Wrap64(req.height - 1), req.commit);
  }

  /** With a populated cache, acceptance in production means the injected transactions are exactly
      the results recomputed from the cached extensions, and those extensions back a quorum. */
  lemma {:induction false} AcceptedMatchesCache(app: App, view: View, req: Proposal)
    requires Accepts(app, Some(view), req) && Production(app)
    requires FoundCount(view.byHeight, view.chainID, Wrap64(req.height - 1), req.commit) > 0
    ensures var votes := Extended(view.byHeight, view.chainID, Wrap64(req.height - 1), req.commit);
      && app.handler.Some?
      && ExactMatch(app.codec, app.handler.value.aggregate(votes), req.txs, Threshold(app))
      && (InjectedCount(app.codec, req.txs) > 0 && Evidence.NonNegative(req.commit)
            && 0 < SumPower(req.commit) < TWO_63 && NoOverflow(SumPower(req.commit), Threshold(app))
          ==> 3 * EvidenceSum(votes) > 2 * SumPower(req.commit))
  {
    var last := Wrap64(req.height - 1);
    var votes := Extended(view.byHeight, view.chainID, last, req.commit);
    ExtensionKeepsPower(view.byHeight, view.chainID, last, req.commit);
    if InjectedCount(app.codec, req.txs) > 0 && Evidence.NonNegative(req.commit)
       && 0 < SumPower(req.commit) < TWO_63 && NoOverflow(SumPower(req.commit), Threshold(app)) {
      EvidenceBounded(votes);
      MoreThanTwoThirds(SumPower(req.commit), Threshold(app), EvidenceSum(votes));
    }
  }
}
