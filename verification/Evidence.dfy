/**
 app/consensus_evidence.go: the quorum arithmetic and the audit that a validator runs on the
 consensus results a proposer injected into a block.
 */
module Evidence {
  import opened Encoding
  import opened VoteTypes

  // ---------------------------------------------------------------- quorum arithmetic

  function Clamp(threshold: int64): (t: int64)
    ensures t >= 67
  {
    if threshold < 67 then 67 else threshold
  }

  /** requiredConsensusPower, with int64 wrap-around. */
  function RequiredPower(total: int64, threshold: int64): int64
  {
    if total <= 0 then 0 else TruncDiv(Wrap64(total * Clamp(threshold)), 100) + 1
  }

  /** The product the formula needs is an int64. */
  predicate NoOverflow(total: int, threshold: int64)
  {
    total * Clamp(threshold) < TWO_63
  }

  /** The formula computes floor(total * threshold / 100) + 1 exactly when the product is an int64. */
  lemma {:induction false} RequiredPowerExact(total: int64, threshold: int64)
    requires total > 0
    ensures RequiredPower(total, threshold) == total * Clamp(threshold) / 100 + 1 <==> NoOverflow(total, threshold)
  {
    var p := total * Clamp(threshold);
    assert p > 0;
    var w := Wrap64(p);
    if p >= TWO_63 {
      var k := (p - w) / TWO_64;
      assert p == w + k * TWO_64;
      assert w < p;
      assert k >= 1;
      assert TruncDiv(w, 100) < p / 100;
    }
  }

  /** A power is a quorum exactly when it is strictly more than the percentage, which is never below 67. */
  lemma {:induction false} QuorumIff(total: int64, threshold: int64, power: int)
    requires total > 0 && NoOverflow(total, threshold)
    ensures power >= RequiredPower(total, threshold) <==>
            100 * power > total * (if threshold < 67 then 67 else threshold)
  {
    RequiredPowerExact(total, threshold);
    var p := total * (if threshold < 67 then 67 else threshold);
    assert p == 100 * (p / 100) + p % 100;
  }

  /** A quorum holds strictly more than two thirds of the power. */
  lemma {:induction false} MoreThanTwoThirds(total: int64, threshold: int64, power: int)
    requires total > 0 && NoOverflow(total, threshold) && power >= RequiredPower(total, threshold)
    ensures 3 * power > 2 * total
  {
    RequiredPowerExact(total, threshold);
    MulMono(total, 67, Clamp(threshold));
  }

  lemma HundredthsOf(total: int, p: int)
    ensures p <= 99 * total && total > 0 ==> p / 100 + 1 <= total
    ensures p >= 100 * total ==> p / 100 + 1 > total
  {
  }

  /** All votes together form a quorum exactly when the threshold is at most 99. */
  lemma {:induction false} UnanimityReaches(total: int64, threshold: int64)
    requires total > 0 && NoOverflow(total, threshold)
    ensures total >= RequiredPower(total, threshold) <==> threshold <= 99
  {
    RequiredPowerExact(total, threshold);
    if threshold <= 99 {
      MulMono(total, Clamp(threshold), 99);
    } else {
      MulMono(total, 100, threshold);
    }
    HundredthsOf(total, total * Clamp(threshold));
  }

  function SumPower(votes: seq<CommitVote>): int
  {
    if votes == [] then 0 else SumPower(votes[..|votes| - 1]) + votes[|votes| - 1].power
  }

  /** The power of the votes at the positions in who. */
  function PowerOf(votes: seq<CommitVote>, who: set<nat>): int
  {
    if votes == [] then 0
    else PowerOf(votes[..|votes| - 1], who) + if |votes| - 1 in who then votes[|votes| - 1].power else 0
  }

  predicate NonNegative(votes: seq<CommitVote>)
  {
    forall i :: 0 <= i < |votes| ==> votes[i].power >= 0
  }

  lemma {:induction false} InclusionExclusion(votes: seq<CommitVote>, a: set<nat>, b: set<nat>)
    requires NonNegative(votes)
    ensures PowerOf(votes, a) + PowerOf(votes, b) <= SumPower(votes) + PowerOf(votes, a * b)
  {
    if votes != [] {
      InclusionExclusion(votes[..|votes| - 1], a, b);
    }
  }

  /** Any two quorums share more than a third of the power. */
  lemma {:induction false} QuorumIntersection(votes: seq<CommitVote>, threshold: int64, a: set<nat>, b: set<nat>)
    requires NonNegative(votes) && 0 < SumPower(votes) && NoOverflow(SumPower(votes), threshold)
    requires SumPower(votes) < TWO_63
    requires PowerOf(votes, a) >= RequiredPower(SumPower(votes), threshold)
    requires PowerOf(votes, b) >= RequiredPower(SumPower(votes), threshold)
    ensures 3 * PowerOf(votes, a * b) > SumPower(votes)
  {
    InclusionExclusion(votes, a, b);
    MoreThanTwoThirds(SumPower(votes), threshold, PowerOf(votes, a));
    MoreThanTwoThirds(SumPower(votes), threshold, PowerOf(votes, b));
  }

  // ---------------------------------------------------------------- checks on one transaction

  /** validateInjectedConsensusTxFormat. */
  predicate WellFormed(tx: InjectedTx)
  {
    && tx.txType == INJECTED_TYPE
    && tx.jobID != []
    && |tx.outputHash| == 32
    && tx.validatorCount >= 0 && tx.totalVotes >= 0 && tx.agreementPower >= 0 && tx.totalPower >= 0
    && tx.validatorCount <= tx.totalVotes
  }

  /** parseInjectedConsensusTx: None is an error. */
  function Parse(codec: TxCodec, txBytes: bytes): (r: Option<InjectedTx>)
    ensures r.Some? ==> WellFormed(r.value) && codec.json.dec(txBytes) == r
  {
    match codec.json.dec(txBytes)
    case None => None
    case Some(tx) => if WellFormed(tx) then Some(tx) else None
  }

  method CommitVoteTotals(commit: seq<CommitVote>) returns (totalVotes: nat, totalPower: int64)
    ensures totalVotes == |commit| && totalPower == Wrap64(SumPower(commit))
  {
    totalVotes, totalPower := |commit|, 0;
    for i := 0 to |commit|
      invariant totalPower == Wrap64(SumPower(commit[..i]))
    {
      assert commit[..i + 1][..i] == commit[..i];
      WrapAdd(SumPower(commit[..i]), commit[i].power);
      totalPower := Wrap64(totalPower + commit[i].power);
    }
    assert commit[..|commit|] == commit;
  }

  /** The claim of tx agrees with the commit and holds a quorum of its power. */
  predicate MatchesCommit(tx: InjectedTx, commit: seq<CommitVote>, threshold: int64)
  {
    && tx.totalVotes == |commit|
    && tx.totalPower == Wrap64(SumPower(commit))
    && tx.totalPower > 0
    && tx.agreementPower >= RequiredPower(tx.totalPower, threshold)
  }

  /** validateInjectedConsensusEvidenceAgainstCommit: true when it returns nil. */
  method EvidenceOk(codec: TxCodec, txBytes: bytes, commit: seq<CommitVote>, threshold: int64) returns (ok: bool)
    ensures ok <==> Parse(codec, txBytes).Some? && MatchesCommit(Parse(codec, txBytes).value, commit, threshold)
  {
    var parsed := Parse(codec, txBytes);
    if parsed.None? {
      return false;
    }
    var tx := parsed.value;
    var commitVotes, commitPower := CommitVoteTotals(commit);
    if tx.totalVotes != commitVotes {
      return false;
    }
    if tx.totalPower != commitPower {
      return false;
    }
    var required := RequiredPower(tx.totalPower, threshold);
    if tx.totalPower <= 0 || tx.agreementPower < required {
      return false;
    }
    return true;
  }

  // ---------------------------------------------------------------- the audit

  datatype Code = InvalidInjectedTx | DuplicateJob | CommitEvidenceMismatch

  datatype Issue = Issue(txIndex: nat, jobID: bytes, code: Code)

  datatype Audit = Audit(threshold: int64, totalVotes: nat, totalPower: int64, injectedTxCount: nat, issues: seq<Issue>)

  predicate Passed(a: Audit) { a.issues == [] }

  /** Transaction i is an injected one that parses. */
  predicate ParsedAt(codec: TxCodec, txs: seq<bytes>, i: nat)
  {
    i < |txs| && IsInjected(codec, txs[i]) && Parse(codec, txs[i]).Some?
  }

  function JobAt(codec: TxCodec, txs: seq<bytes>, i: nat): bytes
    requires ParsedAt(codec, txs, i)
  {
    Parse(codec, txs[i]).value.jobID
  }

  /** An earlier transaction already carries the job of transaction i. */
  predicate DuplicateAt(codec: TxCodec, txs: seq<bytes>, i: nat)
    requires ParsedAt(codec, txs, i)
  {
    exists j :: 0 <= j < i && ParsedAt(codec, txs, j) && JobAt(codec, txs, j) == JobAt(codec, txs, i)
  }

  /** The issues transaction i must raise, in order. */
  function IssuesAt(codec: TxCodec, txs: seq<bytes>, commit: seq<CommitVote>, threshold: int64, i: nat): seq<Issue>
    requires i < |txs|
  {
    if !IsInjected(codec, txs[i]) then []
    else if Parse(codec, txs[i]).None? then [Issue(i, [], InvalidInjectedTx)]
    else
      var tx := Parse(codec, txs[i]).value;
      (if DuplicateAt(codec, txs, i) then [Issue(i, tx.jobID, DuplicateJob)] else []) +
      (if MatchesCommit(tx, commit, threshold) then [] else [Issue(i, tx.jobID, CommitEvidenceMismatch)])
  }

  function Flatten(rows: seq<seq<Issue>>): seq<Issue>
  {
    if rows == [] then [] else Flatten(rows[..|rows| - 1]) + rows[|rows| - 1]
  }

  function Rows(codec: TxCodec, txs: seq<bytes>, commit: seq<CommitVote>, threshold: int64): (r: seq<seq<Issue>>)
    ensures |r| == |txs|
  {
    seq(|txs|, i requires 0 <= i < |txs| => IssuesAt(codec, txs, commit, threshold, i))
  }

  function AllIssues(codec: TxCodec, txs: seq<bytes>, commit: seq<CommitVote>, threshold: int64): seq<Issue>
  {
    Flatten(Rows(codec, txs, commit, threshold))
  }

  function InjectedCount(codec: TxCodec, txs: seq<bytes>): nat
  {
    if txs == [] then 0
    else InjectedCount(codec, txs[..|txs| - 1]) + if IsInjected(codec, txs[|txs| - 1]) then 1 else 0
  }

  /** seen maps each job of an earlier parsed transaction to the first one that carries it. */
  ghost predicate FirstSeen(codec: TxCodec, txs: seq<bytes>, n: nat, seen: map<bytes, nat>)
  {
    && (forall i :: 0 <= i < n && ParsedAt(codec, txs, i) ==>
          JobAt(codec, txs, i) in seen && seen[JobAt(codec, txs, i)] <= i)
    && (forall job :: job in seen ==>
          seen[job] < n && ParsedAt(codec, txs, seen[job]) && JobAt(codec, txs, seen[job]) == job)
  }

  /** The loop body for transaction i. */
  method AuditTx(codec: TxCodec, txs: seq<bytes>, commit: seq<CommitVote>, threshold: int64, i: nat,
                 seen: map<bytes, nat>)
    returns (issues: seq<Issue>, seen': map<bytes, nat>)
    requires i < |txs| && FirstSeen(codec, txs, i, seen)
    ensures issues == IssuesAt(codec, txs, commit, threshold, i)
    ensures FirstSeen(codec, txs, i + 1, seen')
  {
    issues, seen' := [], seen;
    if !IsInjected(codec, txs[i]) {
      return;
    }
    var parsed := Parse(codec, txs[i]);
    if parsed.None? {
      return [Issue(i, [], InvalidInjectedTx)], seen;
    }
    var tx := parsed.value;
    assert ParsedAt(codec, txs, i) && JobAt(codec, txs, i) == tx.jobID;
    if tx.jobID in seen {
      issues := [Issue(i, tx.jobID, DuplicateJob)];
    } else {
      seen' := seen[tx.jobID := i];
    }
    var ok := EvidenceOk(codec, txs[i], commit, threshold);
    if !ok {
      issues := issues + [Issue(i, tx.jobID, CommitEvidenceMismatch)];
    }
  }

  /** AuditProposalConsensusEvidence. */
  method AuditProposal(codec: TxCodec, txs: seq<bytes>, commit: seq<CommitVote>, threshold: int64)
    returns (audit: Audit)
    ensures audit == Audit(threshold, |commit|, Wrap64(SumPower(commit)), InjectedCount(codec, txs),
                           AllIssues(codec, txs, commit, threshold))
  {
    var commitVotes, commitPower := CommitVoteTotals(commit);
    var issues: seq<Issue> := [];
    var count := 0;
    var seenJobs: map<bytes, nat> := map[];
    ghost var rows := Rows(codec, txs, commit, threshold);
    for i := 0 to |txs|
      invariant issues == Flatten(rows[..i])
      invariant count == InjectedCount(codec, txs[..i])
      invariant FirstSeen(codec, txs, i, seenJobs)
    {
      assert txs[..i + 1][..i] == txs[..i] && rows[..i + 1][..i] == rows[..i];
      if IsInjected(codec, txs[i]) {
        count := count + 1;
      }
      var found;
      found, seenJobs := AuditTx(codec, txs, commit, threshold, i, seenJobs);
      issues := issues + found;
    }
    assert txs[..|txs|] == txs && rows[..|txs|] == rows;
    audit := Audit(threshold, commitVotes, commitPower, count, issues);
  }

  /** What a proposal must satisfy: every injected transaction parses and matches the commit, and
      no two carry the same job. */
  ghost predicate SoundProposal(codec: TxCodec, txs: seq<bytes>, commit: seq<CommitVote>, threshold: int64)
  {
    && (forall i :: 0 <= i < |txs| && IsInjected(codec, txs[i]) ==>
          ParsedAt(codec, txs, i) && MatchesCommit(Parse(codec, txs[i]).value, commit, threshold))
    && (forall i, j :: 0 <= i < j < |txs| && ParsedAt(codec, txs, i) && ParsedAt(codec, txs, j) ==>
          JobAt(codec, txs, i) != JobAt(codec, txs, j))
  }

  lemma {:induction false} FlattenEmpty(rows: seq<seq<Issue>>)
    ensures Flatten(rows) == [] <==> forall i :: 0 <= i < |rows| ==> rows[i] == []
  {
    if rows != [] {
      var front, last := rows[..|rows| - 1], rows[|rows| - 1];
      FlattenEmpty(front);
      assert |Flatten(rows)| == |Flatten(front)| + |last|;
      assert forall i :: 0 <= i < |front| ==> front[i] == rows[i];
    }
  }

  /** The audit passes exactly on sound proposals. */
  lemma {:induction false} AuditPassesIffSound(codec: TxCodec, txs: seq<bytes>, commit: seq<CommitVote>,
                                               threshold: int64)
    ensures AllIssues(codec, txs, commit, threshold) == [] <==> SoundProposal(codec, txs, commit, threshold)
  {
    var rows := Rows(codec, txs, commit, threshold);
    FlattenEmpty(rows);
    if SoundProposal(codec, txs, commit, threshold) {
      forall i | 0 <= i < |txs|
        ensures rows[i] == []
      {
      }
    } else if Flatten(rows) == [] {
      forall i | 0 <= i < |txs| && IsInjected(codec, txs[i])
        ensures ParsedAt(codec, txs, i) && MatchesCommit(Parse(codec, txs[i]).value, commit, threshold)
        ensures !DuplicateAt(codec, txs, i)
      {
        assert rows[i] == [];
      }
    }
  }

  lemma {:induction false} SumNonNegative(votes: seq<CommitVote>)
    requires NonNegative(votes)
    ensures SumPower(votes) >= 0
  {
    if votes != [] {
      SumNonNegative(votes[..|votes| - 1]);
    }
  }

  lemma SumBounded(total: int, threshold: int64)
    requires total >= 0 && NoOverflow(total, threshold)
    ensures total < TWO_63
  {
    MulMono(total, 67, Clamp(threshold));
  }

  /** Every injected transaction of a proposal that passes claims strictly more than two thirds of
      the real commit power. */
  lemma {:induction false} PassedClaimsQuorum(codec: TxCodec, txs: seq<bytes>, commit: seq<CommitVote>,
                                              threshold: int64, i: nat)
    requires AllIssues(codec, txs, commit, threshold) == []
    requires i < |txs| && IsInjected(codec, txs[i])
    requires NonNegative(commit) && NoOverflow(SumPower(commit), threshold)
    ensures Parse(codec, txs[i]).Some?
    ensures 3 * Parse(codec, txs[i]).value.agreementPower > 2 * SumPower(commit) > 0
  {
    AuditPassesIffSound(codec, txs, commit, threshold);
    var tx := Parse(codec, txs[i]).value;
    SumNonNegative(commit);
    SumBounded(SumPower(commit), threshold);
    MoreThanTwoThirds(tx.totalPower, threshold, tx.agreementPower);
  }

  // ---------------------------------------------------------------- the audit in plain terms

  /** The bytes decode to this claim about a named job with a 32-byte output, no more validators than votes and
      no negative number. */
  predicate ClaimsAs(codec: TxCodec, txBytes: bytes, tx: InjectedTx)
  {
    && codec.json.dec(txBytes) == Some(tx) && tx.txType == Ascii("create_seal_from_consensus")
    && tx.jobID != [] && |tx.outputHash| == 32
    && 0 <= tx.validatorCount <= tx.totalVotes && 0 <= tx.agreementPower && 0 <= tx.totalPower
  }

  lemma {:induction false} ParsesIffClaims(codec: TxCodec, txBytes: bytes, tx: InjectedTx)
    ensures Parse(codec, txBytes) == Some(tx) <==> ClaimsAs(codec, txBytes, tx)
  {
  }

  /** The claim is about this commit and strictly beyond the percentage of its power. */
  predicate HoldsOf(tx: InjectedTx, commit: seq<CommitVote>, threshold: int64)
  {
    && tx.totalVotes == |commit| && tx.totalPower == SumPower(commit) > 0
    && 100 * tx.agreementPower > SumPower(commit) * (if threshold < 67 then 67 else threshold)
  }

  lemma HoldsIffMatches(tx: InjectedTx, commit: seq<CommitVote>, threshold: int64)
    requires NonNegative(commit) && NoOverflow(SumPower(commit), threshold)
    ensures MatchesCommit(tx, commit, threshold) <==> HoldsOf(tx, commit, threshold)
  {
    SumNonNegative(commit);
    SumBounded(SumPower(commit), threshold);
    if SumPower(commit) > 0 {
      QuorumIff(SumPower(commit), threshold, tx.agreementPower);
    }
  }

  lemma {:induction false} InFlatten(rows: seq<seq<Issue>>, x: Issue)
    ensures x in Flatten(rows) <==> exists i :: 0 <= i < |rows| && x in rows[i]
  {
    if rows != [] {
      var n := |rows| - 1;
      InFlatten(rows[..n], x);
      if i :| 0 <= i < |rows| && x in rows[i] {
        assert i == n || rows[..n][i] == rows[i];
      }
      if i :| 0 <= i < n && x in rows[..n][i] {
        assert x in rows[i];
      }
    }
  }

  /** Transaction i is injected and makes this claim. */
  predicate ClaimAt(codec: TxCodec, txs: seq<bytes>, i: nat, tx: InjectedTx)
  {
    i < |txs| && IsInjected(codec, txs[i]) && ClaimsAs(codec, txs[i], tx)
  }

  lemma OnlyOwnRow(codec: TxCodec, txs: seq<bytes>, commit: seq<CommitVote>, threshold: int64, i: nat, job: bytes,
                   code: Code)
    ensures Issue(i, job, code) in AllIssues(codec, txs, commit, threshold) <==>
            i < |txs| && Issue(i, job, code) in IssuesAt(codec, txs, commit, threshold, i)
  {
    var rows, x := Rows(codec, txs, commit, threshold), Issue(i, job, code);
    InFlatten(rows, x);
    if k :| 0 <= k < |rows| && x in rows[k] {
      assert rows[k] == IssuesAt(codec, txs, commit, threshold, k);
      assert k == i;
    }
    if i < |txs| {
      assert rows[i] == IssuesAt(codec, txs, commit, threshold, i);
    }
  }

  lemma DuplicateIff(codec: TxCodec, txs: seq<bytes>, i: nat)
    requires ParsedAt(codec, txs, i)
    ensures DuplicateAt(codec, txs, i) <==>
      exists j: nat, ty :: j < i && ClaimAt(codec, txs, j, ty) && ty.jobID == JobAt(codec, txs, i)
  {
    if DuplicateAt(codec, txs, i) {
      var j :| 0 <= j < i && ParsedAt(codec, txs, j) && JobAt(codec, txs, j) == JobAt(codec, txs, i);
      assert ClaimAt(codec, txs, j, Parse(codec, txs[j]).value);
    }
    if j: nat, ty :| j < i && ClaimAt(codec, txs, j, ty) && ty.jobID == JobAt(codec, txs, i) {
      assert ParsedAt(codec, txs, j) && JobAt(codec, txs, j) == ty.jobID;
    }
  }

  lemma RowIssues(codec: TxCodec, txs: seq<bytes>, commit: seq<CommitVote>, threshold: int64, i: nat, job: bytes)
    requires NonNegative(commit) && NoOverflow(SumPower(commit), threshold)
    requires i < |txs| && IsInjected(codec, txs[i])
    ensures var row := IssuesAt(codec, txs, commit, threshold, i);
      && (Issue(i, job, InvalidInjectedTx) in row <==> job == [] && forall tx :: !ClaimsAs(codec, txs[i], tx))
      && (Issue(i, job, DuplicateJob) in row <==>
            exists tx :: ClaimAt(codec, txs, i, tx) && tx.jobID == job
                         && exists j: nat, ty :: j < i && ClaimAt(codec, txs, j, ty) && ty.jobID == job)
      && (Issue(i, job, CommitEvidenceMismatch) in row <==>
            exists tx :: ClaimAt(codec, txs, i, tx) && tx.jobID == job && !HoldsOf(tx, commit, threshold))
  {
    if Parse(codec, txs[i]).Some? {
      var tx := Parse(codec, txs[i]).value;
      ParsesIffClaims(codec, txs[i], tx);
      assert ClaimAt(codec, txs, i, tx);
      HoldsIffMatches(tx, commit, threshold);
      DuplicateIff(codec, txs, i);
    }
  }

  /** Which issues an audit raises, issue by issue: an injected transaction that makes no claim is invalid; one
      whose job an earlier one claims is a duplicate; one whose claim does not hold of the commit is a
      mismatch; and it raises no others. */
  lemma {:induction false} IssueIff(codec: TxCodec, txs: seq<bytes>, commit: seq<CommitVote>, threshold: int64, i: nat,
                                    job: bytes)
    requires NonNegative(commit) && NoOverflow(SumPower(commit), threshold)
    ensures Issue(i, job, InvalidInjectedTx) in AllIssues(codec, txs, commit, threshold) <==>
      job == [] && i < |txs| && IsInjected(codec, txs[i]) && forall tx :: !ClaimsAs(codec, txs[i], tx)
    ensures Issue(i, job, DuplicateJob) in AllIssues(codec, txs, commit, threshold) <==>
      exists tx :: ClaimAt(codec, txs, i, tx) && tx.jobID == job
                   && exists j: nat, ty :: j < i && ClaimAt(codec, txs, j, ty) && ty.jobID == job
    ensures Issue(i, job, CommitEvidenceMismatch) in AllIssues(codec, txs, commit, threshold) <==>
      exists tx :: ClaimAt(codec, txs, i, tx) && tx.jobID == job && !HoldsOf(tx, commit, threshold)
  {
    forall code: Code
      ensures Issue(i, job, code) in AllIssues(codec, txs, commit, threshold) <==>
              i < |txs| && Issue(i, job, code) in IssuesAt(codec, txs, commit, threshold, i)
    {
      OnlyOwnRow(codec, txs, commit, threshold, i, job, code);
    }
    if i < |txs| && IsInjected(codec, txs[i]) {
      RowIssues(codec, txs, commit, threshold, i, job);
    }
  }

  /** x is listed before y: for an earlier transaction, or the duplicate before the mismatch. */
  predicate Before(x: Issue, y: Issue)
  {
    x.txIndex < y.txIndex || (x.txIndex == y.txIndex && x.code == DuplicateJob && y.code == CommitEvidenceMismatch)
  }

  lemma {:induction false} FlattenOrdered(rows: seq<seq<Issue>>)
    requires forall r :: 0 <= r < |rows| ==>
      && (forall x :: x in rows[r] ==> x.txIndex == r)
      && (forall a, b :: 0 <= a < b < |rows[r]| ==> Before(rows[r][a], rows[r][b]))
    ensures forall x :: x in Flatten(rows) ==> x.txIndex < |rows|
    ensures forall a, b :: 0 <= a < b < |Flatten(rows)| ==> Before(Flatten(rows)[a], Flatten(rows)[b])
  {
    if rows != [] {
      var front, last := rows[..|rows| - 1], rows[|rows| - 1];
      FlattenOrdered(front);
      var f := Flatten(front);
      forall a, b | 0 <= a < b < |Flatten(rows)|
        ensures Before(Flatten(rows)[a], Flatten(rows)[b])
      {
        if a < |f| <= b {
          assert f[a] in f && last[b - |f|] in last;
        }
      }
    }
  }

  /** The issues come in the order of the transactions. */
  lemma {:induction false} IssuesInOrder(codec: TxCodec, txs: seq<bytes>, commit: seq<CommitVote>, threshold: int64)
    ensures var issues := AllIssues(codec, txs, commit, threshold);
      forall a, b :: 0 <= a < b < |issues| ==> Before(issues[a], issues[b])
  {
    FlattenOrdered(Rows(codec, txs, commit, threshold));
  }
}
