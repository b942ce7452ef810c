/**
 How far the ProcessProposal decision of app/abci.go depends on the validator's own cache of vote
 extensions: when two caches always lead to the same verdict, a proposal on which a full and a
 partial cache split, and what an acceptance says about the extensions the validator verified.
 */
module CacheSplit {
  import opened Encoding
  import opened VoteTypes
  import opened Evidence
  import opened Finality
  import opened Cache
  import opened ProcessProposal
  import VerifyVote

  // ---------------------------------------------------------------- when two caches agree

  function Hits(view: View, height: int64, commit: seq<CommitVote>): nat
  {
    FoundCount(view.byHeight, view.chainID, Wrap64(height - 1), commit)
  }

  function Attached(view: View, height: int64, commit: seq<CommitVote>): seq<ExtendedVote>
  {
    Extended(view.byHeight, view.chainID, Wrap64(height - 1), commit)
  }

  /** Both caches miss the whole commit, or both have an entry for it and attach the same extensions. */
  predicate SameEvidence(v: View, w: View, height: int64, commit: seq<CommitVote>)
  {
    || (Hits(v, height, commit) == 0 && Hits(w, height, commit) == 0)
    || (Hits(v, height, commit) > 0 && Hits(w, height, commit) > 0
        && Attached(v, height, commit) == Attached(w, height, commit))
  }

  /** No application and no list of transactions tells the two caches apart. */
  ghost predicate SameVerdicts(v: View, w: View, height: int64, commit: seq<CommitVote>)
  {
    forall app, txs ::
      Accepts(app, Some(v), Proposal(height, txs, commit)) == Accepts(app, Some(w), Proposal(height, txs, commit))
  }

  const ONE_RESULT: KeyedResults := map[[1] := Some(JobResult([1], Zeros(32), 1, 1, 1, 1, true))]

  /** A production application whose keeper finds a result in these votes and in no others. */
  function Separating(votes: seq<ExtendedVote>): App
  {
    App(TxCodec(_ => None, JsonCodec(_ => None, _ => None)), true, None,
        Some(Handler(_ => true, other => if other == votes then ONE_RESULT else map[])), _ => true)
  }

  lemma EmptyChainAccepts(app: App, height: int64, commit: seq<CommitVote>)
    ensures ChainAccepts(app, Proposal(height, [], commit))
  {
    assert Rows(app.codec, [], commit, Threshold(app)) == [];
  }

  /** The proposal without transactions omits the one result and matches the absence of results. */
  lemma EmptyMatches(codec: TxCodec, threshold: int64)
    ensures !ExactMatch(codec, ONE_RESULT, [], threshold) && ExactMatch(codec, map[], [], threshold)
  {
    assert HasConsensus(ONE_RESULT, [1]);
  }

  lemma Separates(v: View, w: View, height: int64, commit: seq<CommitVote>)
    requires Hits(v, height, commit) > 0
    requires Hits(w, height, commit) == 0 || Attached(v, height, commit) != Attached(w, height, commit)
    ensures var app, req := Separating(Attached(v, height, commit)), Proposal(height, [], commit);
      !Accepts(app, Some(v), req) && Accepts(app, Some(w), req)
  {
    var app := Separating(Attached(v, height, commit));
    EmptyChainAccepts(app, height, commit);
    EmptyMatches(app.codec, Threshold(app));
  }

  /** Two caches lead to the same verdict on every proposal for a commit, whatever the application,
      exactly when neither has an entry for it or both attach the same extensions. */
  lemma {:induction false} VerdictsAgreeIff(v: View, w: View, height: int64, commit: seq<CommitVote>)
    ensures SameVerdicts(v, w, height, commit) <==> SameEvidence(v, w, height, commit)
  {
    if !SameEvidence(v, w, height, commit) {
      if Hits(v, height, commit) > 0 {
        Separates(v, w, height, commit);
      } else {
        Separates(w, v, height, commit);
      }
    }
  }

  // ---------------------------------------------------------------- acceptance rests on verified extensions

  /** Some request verified an extension of this validator for this height. */
  ghost predicate VerifiedFrom(reqs: seq<VerifyVote.Request>, height: int64, addr: bytes)
  {
    exists k :: 0 <= k < |reqs| && reqs[k].call.height == height && reqs[k].call.addr == addr
                && VerifyVote.Passes(reqs[k].v, reqs[k].call)
  }

  /** The commit power of the validators whose extensions were verified. */
  ghost function VerifiedPower(reqs: seq<VerifyVote.Request>, height: int64, commit: seq<CommitVote>): int
  {
    if commit == [] then 0
    else
      var v := commit[|commit| - 1];
      VerifiedPower(reqs, height, commit[..|commit| - 1]) + if VerifiedFrom(reqs, height, v.address) then v.power else 0
  }

  lemma {:induction false} EvidenceIsVerified(chainID: bytes, max: nat, reqs: seq<VerifyVote.Request>,
                                              states: seq<Heights>,
                                              height: int64, commit: seq<CommitVote>)
    requires VerifyVote.Run(chainID, max, reqs, states) && Evidence.NonNegative(commit)
    ensures EvidenceSum(Extended(states[|reqs|], chainID, height, commit)) <= VerifiedPower(reqs, height, commit)
  {
    if commit != [] {
      var n := |commit| - 1;
      var votes := Extended(states[|reqs|], chainID, height, commit);
      assert votes[..n] == Extended(states[|reqs|], chainID, height, commit[..n]);
      EvidenceIsVerified(chainID, max, reqs, states, height, commit[..n]);
      if votes[n].ext != [] {
        VerifyVote.EvidenceWasVerified(chainID, max, reqs, states, height, commit, n);
      }
    }
  }

  lemma {:induction false} InjectedExists(codec: TxCodec, txs: seq<bytes>)
    requires InjectedCount(codec, txs) > 0
    ensures exists i :: 0 <= i < |txs| && IsInjected(codec, txs[i])
  {
    var n := |txs| - 1;
    if !IsInjected(codec, txs[n]) {
      InjectedExists(codec, txs[..n]);
      var i :| 0 <= i < n && IsInjected(codec, txs[..n][i]);
      assert IsInjected(codec, txs[i]);
    }
  }

  /** In every run of the verification handler, a production node that has an entry for the commit
      and accepts an injected transaction has itself verified, for that height, extensions from
      validators with more than two thirds of the commit's power. */
  lemma {:induction false} AcceptedWasVerified(app: App, chainID: bytes, max: nat, reqs: seq<VerifyVote.Request>,
                                               states: seq<Heights>, req: Proposal)
    requires VerifyVote.Run(chainID, max, reqs, states) && Production(app)
    requires Accepts(app, Some(View(states[|reqs|], chainID)), req) && InjectedCount(app.codec, req.txs) > 0
    requires Hits(View(states[|reqs|], chainID), req.height, req.commit) > 0
    requires Evidence.NonNegative(req.commit) && NoOverflow(SumPower(req.commit), Threshold(app))
    ensures 3 * VerifiedPower(reqs, Wrap64(req.height - 1), req.commit) > 2 * SumPower(req.commit) > 0
  {
    var view := View(states[|reqs|], chainID);
    InjectedExists(app.codec, req.txs);
    AcceptedClaimsQuorum(app, Some(view), req);
    SumBounded(SumPower(req.commit), Threshold(app));
    AcceptedMatchesCache(app, view, req);
    EvidenceIsVerified(chainID, max, reqs, states, Wrap64(req.height - 1), req.commit);
  }

  // ---------------------------------------------------------------- a partial cache

  /** The commit of height 1: three validators of equal power. */
  const COMMIT: seq<CommitVote> := [CommitVote([1], 1, 2), CommitVote([2], 1, 2), CommitVote([3], 1, 2)]

  /** What all three report: one job, backed by everybody. */
  const UNANIMOUS: InjectedTx := InjectedTx([1], Zeros(32), 3, 3, 3, 3, [], 2, INJECTED_TYPE)

  const DATA: bytes := [8]

  /** A lossless codec that knows the one transaction. */
  const CODEC: TxCodec :=
    TxCodec(b => if b == DATA then Some(INJECTED_TYPE) else None,
            JsonCodec(tx => if tx == UNANIMOUS then Some(DATA) else None,
                      b => if b == DATA then Some(UNANIMOUS) else None))

  /** A request of the verification handler that passes, for a non-empty extension of the first validator. */
  ghost predicate PassesForFirst(q: VerifyVote.Request)
  {
    q.call.height == 1 && q.call.addr == [1] && q.call.ext != [] && VerifyVote.Passes(q.v, q.call)
  }

  function CachedOne(chainID: bytes, ext: bytes): Heights
  {
    map[1 := map[CacheKey(chainID, [1]) := ext]]
  }

  /** The cache that has seen this one of the three extensions is the one the handler produces. */
  lemma CachedOneIsReached(chainID: bytes, max: nat, q: VerifyVote.Request)
    requires max >= 1 && PassesForFirst(q)
    ensures VerifyVote.Run(chainID, max, [q], [map[], CachedOne(chainID, q.call.ext)])
  {
    var m: Heights, cached := map[], CachedOne(chainID, q.call.ext);
    assert Insert(m, chainID, q.call) == cached;
    assert cached.Keys == {1};
    assert Pruned(cached, max, cached);
  }

  lemma SumOfThree(a: ExtendedVote, b: ExtendedVote, c: ExtendedVote)
    ensures PowerSum([a, b, c]) == a.vote.power + b.vote.power + c.vote.power
    ensures EvidenceSum([a, b, c]) == (if a.ext != [] then a.vote.power else 0) +
              (if b.ext != [] then b.vote.power else 0) + if c.ext != [] then c.vote.power else 0
  {
    assert [a, b, c][..2] == [a, b] && [a, b][..1] == [a] && [a][..0] == [];
    assert PowerSum([a]) == a.vote.power;
    assert PowerSum([a, b]) == PowerSum([a]) + b.vote.power;
    assert EvidenceSum([a]) == if a.ext != [] then a.vote.power else 0;
    assert EvidenceSum([a, b]) == EvidenceSum([a]) + if b.ext != [] then b.vote.power else 0;
  }

  lemma CachedOneEvidence(chainID: bytes, ext: bytes)
    requires ext != []
    ensures FoundCount(CachedOne(chainID, ext), chainID, 1, COMMIT) > 0
    ensures EvidenceSum(Extended(CachedOne(chainID, ext), chainID, 1, COMMIT)) == 1
    ensures PowerSum(Extended(CachedOne(chainID, ext), chainID, 1, COMMIT)) == 3
  {
    var m := CachedOne(chainID, ext);
    var votes := Extended(m, chainID, 1, COMMIT);
    forall a: bytes | a == [2] || a == [3]
      ensures CacheKey(chainID, a) !in m[1]
    {
      if CacheKey(chainID, a) == CacheKey(chainID, [1]) {
        CacheKeyInjective(chainID, a, chainID, [1]);
      }
    }
    assert votes == [ExtendedVote(COMMIT[0], ext), ExtendedVote(COMMIT[1], []), ExtendedVote(COMMIT[2], [])];
    SumOfThree(votes[0], votes[1], votes[2]);
    assert COMMIT[..2][..1] == [COMMIT[0]] && [COMMIT[0]][..0] == [];
    assert FoundCount(m, chainID, 1, [COMMIT[0]]) == 1;
    assert FoundCount(m, chainID, 1, COMMIT[..2]) == 1;
  }

  lemma CommitPower()
    ensures SumPower(COMMIT) == 3 && RequiredPower(3, 67) == 3
  {
    assert COMMIT[..2][..1] == [COMMIT[0]] && [COMMIT[0]][..0] == [];
    assert SumPower([COMMIT[0]]) == 1 && SumPower(COMMIT[..2]) == 2;
  }

  /** The proposal carries a well-formed claim that matches the commit, so the chain state accepts it. */
  lemma UnanimousChainAccepts(app: App)
    requires app.codec == CODEC && Threshold(app) == 67 && app.handler.Some? && app.handler.value.validateSeal(DATA)
    ensures ChainAccepts(app, Proposal(2, [DATA], COMMIT)) && InjectedCount(CODEC, [DATA]) == 1
  {
    CommitPower();
    assert [DATA][..0] == [];
    assert TotalBytes([DATA]) == 1;
    assert Parse(CODEC, DATA) == Some(UNANIMOUS);
    assert SoundProposal(CODEC, [DATA], COMMIT, 67);
    AuditPassesIffSound(CODEC, [DATA], COMMIT, 67);
  }

  /** The verdict does depend on the cache, whatever the keeper computes: all three validators back a
      job, the proposal says so and its seal is valid, yet a production node whose handler has
      verified the extension of one of the three, whichever it is, rejects the proposal, and accepts
      it after a restart. */
  lemma {:induction false} PartialCacheRejects(h: Handler, chainID: bytes, max: nat, q: VerifyVote.Request)
    requires h.validateSeal(DATA) && max >= 1 && PassesForFirst(q)
    ensures TxLossless(CODEC)
    ensures VerifyVote.Run(chainID, max, [q], [map[], CachedOne(chainID, q.call.ext)])
    ensures var app := App(CODEC, true, None, Some(h), _ => true);
      var view, req := View(CachedOne(chainID, q.call.ext), chainID), Proposal(2, [DATA], COMMIT);
      !Accepts(app, Some(view), req) && Accepts(app, Some(Restarted(view)), req)
  {
    var app := App(CODEC, true, None, Some(h), _ => true);
    var view, req := View(CachedOne(chainID, q.call.ext), chainID), Proposal(2, [DATA], COMMIT);
    CachedOneIsReached(chainID, max, q);
    CachedOneEvidence(chainID, q.call.ext);
    CommitPower();
    UnanimousChainAccepts(app);
    RestartSafe(app, view, req);
    assert !EvidenceQuorum(Attached(view, 2, COMMIT), 67);
  }
}
