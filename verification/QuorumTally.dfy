/**
 What the aggregation of app/vote_extension.go guarantees: votes are counted once, powers are
 conserved, at most one output per job can win, and so the result does not depend on the order in
 which Go iterates its maps or on the order of the votes.
 */
module QuorumTally {
  import opened Encoding
  import opened VoteTypes
  import opened Aggregation

  // ---------------------------------------------------------------- votes behind an output

  /** A successful entry for the job with the output whose hexadecimal form is key. */
  predicate Reporting(v: ComputeVerification, job: bytes, key: bytes)
  {
    v.success && v.jobID == job && Hex(v.outputHash) == key
  }

  predicate ReportsIn(vs: seq<ComputeVerification>, job: bytes, key: bytes)
  {
    exists i :: 0 <= i < |vs| && Reporting(vs[i], job, key)
  }

  predicate SucceedsIn(vs: seq<ComputeVerification>, job: bytes)
  {
    exists i :: 0 <= i < |vs| && vs[i].success && vs[i].jobID == job
  }

  /** The vote reports success on the job with the output whose hexadecimal form is key. */
  predicate Backs(v: Vote, job: bytes, key: bytes)
  {
    v.ext.Some? && ReportsIn(v.ext.value.verifications, job, key)
  }

  /** The vote reports success on the job. */
  predicate Succeeds(v: Vote, job: bytes)
  {
    v.ext.Some? && SucceedsIn(v.ext.value.verifications, job)
  }

  /** At most one successful entry per job. */
  predicate OnePerJob(vs: seq<ComputeVerification>)
  {
    forall i, j :: 0 <= i < j < |vs| && vs[i].success && vs[j].success ==> vs[i].jobID != vs[j].jobID
  }

  predicate Regular(votes: seq<Vote>)
  {
    forall i :: 0 <= i < |votes| && votes[i].ext.Some? ==> OnePerJob(votes[i].ext.value.verifications)
  }

  /** No two successful entries report the same output of the same job. */
  predicate NoRepeat(vs: seq<ComputeVerification>)
  {
    forall i, j :: 0 <= i < j < |vs| && vs[i].success && vs[j].success ==>
      !(vs[i].jobID == vs[j].jobID && vs[i].outputHash == vs[j].outputHash)
  }

  predicate VoteUnrepeated(v: Vote)
  {
    v.ext.Some? ==> NoRepeat(v.ext.value.verifications)
  }

  predicate Unrepeated(votes: seq<Vote>)
  {
    forall i :: 0 <= i < |votes| ==> VoteUnrepeated(votes[i])
  }

  predicate NonNegative(votes: seq<Vote>)
  {
    forall i :: 0 <= i < |votes| ==> votes[i].power >= 0
  }

  // ---------------------------------------------------------------- sums over votes

  function Sum(votes: seq<Vote>, f: Vote -> int): int
  {
    if votes == [] then 0 else Sum(votes[..|votes| - 1], f) + f(votes[|votes| - 1])
  }

  function WeightOf(fallback: bool): Vote -> int
  {
    v => Weight(v, fallback)
  }

  /** The weight of a vote, if it is behind the output. */
  function BackingWeight(job: bytes, key: bytes, fallback: bool): Vote -> int
  {
    v => if Backs(v, job, key) then Weight(v, fallback) else 0
  }

  function SuccessWeight(job: bytes, fallback: bool): Vote -> int
  {
    v => if Succeeds(v, job) then Weight(v, fallback) else 0
  }

  function Backing(job: bytes, key: bytes): Vote -> int
  {
    v => if Backs(v, job, key) then 1 else 0
  }

  lemma {:induction false} SumRemove(votes: seq<Vote>, f: Vote -> int, i: nat)
    requires i < |votes|
    ensures Sum(votes, f) == f(votes[i]) + Sum(votes[..i] + votes[i + 1..], f)
  {
    var n := |votes| - 1;
    var rest := votes[..i] + votes[i + 1..];
    if i == n {
      assert rest == votes[..n];
    } else {
      SumRemove(votes[..n], f, i);
      assert votes[..n][..i] == votes[..i];
      assert rest[..|rest| - 1] == votes[..n][..i] + votes[..n][i + 1..];
    }
  }

  lemma RemoveAt(votes: seq<Vote>, i: nat)
    requires i < |votes|
    ensures multiset(votes[..i] + votes[i + 1..]) == multiset(votes) - multiset{votes[i]}
  {
    assert votes == votes[..i] + [votes[i]] + votes[i + 1..];
  }

  /** A sum does not depend on the order of the votes. */
  lemma {:induction false} SumPermutes(votes: seq<Vote>, other: seq<Vote>, f: Vote -> int)
    requires multiset(votes) == multiset(other)
    ensures Sum(votes, f) == Sum(other, f)
  {
    if votes == [] {
      assert |multiset(other)| == 0;
    } else {
      var n := |votes| - 1;
      assert votes[n] in multiset(other);
      var i :| 0 <= i < |other| && other[i] == votes[n];
      RemoveAt(other, i);
      RemoveAt(votes, n);
      assert votes[..n] + votes[n + 1..] == votes[..n];
      SumPermutes(votes[..n], other[..i] + other[i + 1..], f);
      SumRemove(other, f, i);
    }
  }

  lemma {:induction false} SumLe(votes: seq<Vote>, f: Vote -> int, g: Vote -> int)
    requires forall i :: 0 <= i < |votes| ==> f(votes[i]) <= g(votes[i])
    ensures Sum(votes, f) <= Sum(votes, g)
  {
    if votes != [] {
      SumLe(votes[..|votes| - 1], f, g);
    }
  }

  lemma {:induction false} SumPlusLe(votes: seq<Vote>, f: Vote -> int, g: Vote -> int, h: Vote -> int)
    requires forall i :: 0 <= i < |votes| ==> f(votes[i]) + g(votes[i]) <= h(votes[i])
    ensures Sum(votes, f) + Sum(votes, g) <= Sum(votes, h)
  {
    if votes != [] {
      SumPlusLe(votes[..|votes| - 1], f, g, h);
    }
  }

  lemma {:induction false} SumNonNegative(votes: seq<Vote>, f: Vote -> int)
    requires forall i :: 0 <= i < |votes| ==> f(votes[i]) >= 0
    ensures Sum(votes, f) >= 0
  {
    if votes != [] {
      SumNonNegative(votes[..|votes| - 1], f);
    }
  }

  // ---------------------------------------------------------------- entries and votes

  lemma {:induction false} Concat(a: seq<Entry>, b: seq<Entry>, job: bytes, key: bytes)
    ensures HasJob(a + b, job) <==> HasJob(a, job) || HasJob(b, job)
    ensures HasKey(a + b, job, key) <==> HasKey(a, job, key) || HasKey(b, job, key)
    ensures Atts(a + b, job, key) == Atts(a, job, key) + Atts(b, job, key)
    ensures Power(a + b, job, key) == Power(a, job, key) + Power(b, job, key)
  {
    if b == [] {
      assert a + b == a;
    } else {
      var n := |b| - 1;
      Concat(a, b[..n], job, key);
      assert (a + b)[..|a + b| - 1] == a + b[..n];
    }
  }

  lemma ReportsSnoc(vs: seq<ComputeVerification>, job: bytes, key: bytes)
    requires vs != []
    ensures var n := |vs| - 1;
      && (ReportsIn(vs, job, key) <==> ReportsIn(vs[..n], job, key) || Reporting(vs[n], job, key))
      && (SucceedsIn(vs, job) <==> SucceedsIn(vs[..n], job) || (vs[n].success && vs[n].jobID == job))
  {
  }

  lemma {:induction false} ExtensionKeys(ext: VoteExtension, vs: seq<ComputeVerification>, power: int64, job: bytes,
                                         key: bytes)
    ensures HasKey(EntriesIn(ext, vs, power), job, key) <==> ReportsIn(vs, job, key)
    ensures HasJob(EntriesIn(ext, vs, power), job) <==> SucceedsIn(vs, job)
  {
    if vs != [] {
      var n := |vs| - 1;
      var front := EntriesIn(ext, vs[..n], power);
      ExtensionKeys(ext, vs[..n], power, job, key);
      ReportsSnoc(vs, job, key);
      if vs[n].success {
        Snoc(front, EntryOf(ext, vs[n], power), job, key);
      } else {
        assert front + [] == front;
      }
    }
  }

  /** How often a list reports an output. */
  function Reports(vs: seq<ComputeVerification>, job: bytes, key: bytes): nat
  {
    if vs == [] then 0
    else Reports(vs[..|vs| - 1], job, key) + if Reporting(vs[|vs| - 1], job, key) then 1 else 0
  }

  lemma OneMore(power: int, k: nat)
    ensures power * (k + 1) == power * k + power
  {
  }

  /** An extension adds its power and one attestation once per entry that reports the output. */
  lemma {:induction false} ExtensionTally(ext: VoteExtension, vs: seq<ComputeVerification>, power: int64, job: bytes,
                                          key: bytes)
    ensures Power(EntriesIn(ext, vs, power), job, key) == power * Reports(vs, job, key)
    ensures |Atts(EntriesIn(ext, vs, power), job, key)| == Reports(vs, job, key)
  {
    if vs != [] {
      var n := |vs| - 1;
      var front := EntriesIn(ext, vs[..n], power);
      ExtensionTally(ext, vs[..n], power, job, key);
      OneMore(power, Reports(vs[..n], job, key));
      if vs[n].success {
        Snoc(front, EntryOf(ext, vs[n], power), job, key);
      } else {
        assert front + [] == front;
      }
    }
  }

  lemma SameOutput(v: ComputeVerification, w: ComputeVerification, job: bytes, key: bytes)
    requires Reporting(v, job, key) && Reporting(w, job, key)
    ensures v.outputHash == w.outputHash
  {
    HexInjective(v.outputHash, w.outputHash);
  }

  lemma {:induction false} ReportsCount(vs: seq<ComputeVerification>, job: bytes, key: bytes)
    ensures Reports(vs, job, key) > 0 <==> ReportsIn(vs, job, key)
    ensures NoRepeat(vs) ==> Reports(vs, job, key) <= 1
  {
    if vs != [] {
      var n := |vs| - 1;
      ReportsCount(vs[..n], job, key);
      assert ReportsIn(vs, job, key) <==> ReportsIn(vs[..n], job, key) || Reporting(vs[n], job, key);
      if Reports(vs[..n], job, key) > 0 && Reporting(vs[n], job, key) {
        var i :| 0 <= i < n && Reporting(vs[i], job, key);
        SameOutput(vs[i], vs[n], job, key);
      }
    }
  }

  lemma {:induction false} RepeatCounted(vs: seq<ComputeVerification>, i: nat, j: nat)
    requires i < j < |vs| && vs[i].success && vs[j].success
    requires vs[i].jobID == vs[j].jobID && vs[i].outputHash == vs[j].outputHash
    ensures Reports(vs, vs[i].jobID, Hex(vs[i].outputHash)) >= 2
  {
    var n := |vs| - 1;
    var job, key := vs[i].jobID, Hex(vs[i].outputHash);
    if j < n {
      RepeatCounted(vs[..n], i, j);
    } else {
      assert Reporting(vs[..n][i], job, key);
      ReportsCount(vs[..n], job, key);
    }
  }

  predicate SomeBacks(votes: seq<Vote>, job: bytes, key: bytes)
  {
    exists i :: 0 <= i < |votes| && Backs(votes[i], job, key)
  }

  predicate SomeSucceeds(votes: seq<Vote>, job: bytes)
  {
    exists i :: 0 <= i < |votes| && Succeeds(votes[i], job)
  }

  lemma SomeSnoc(votes: seq<Vote>, job: bytes, key: bytes)
    requires votes != []
    ensures SomeBacks(votes, job, key) <==>
            SomeBacks(votes[..|votes| - 1], job, key) || Backs(votes[|votes| - 1], job, key)
    ensures SomeSucceeds(votes, job) <==>
            SomeSucceeds(votes[..|votes| - 1], job) || Succeeds(votes[|votes| - 1], job)
  {
  }

  lemma {:induction false} TalliedKeys(votes: seq<Vote>, fallback: bool, job: bytes, key: bytes)
    ensures HasKey(Entries(votes, fallback), job, key) <==> SomeBacks(votes, job, key)
    ensures HasJob(Entries(votes, fallback), job) <==> SomeSucceeds(votes, job)
  {
    if votes != [] {
      var n := |votes| - 1;
      var last := votes[n];
      TalliedKeys(votes[..n], fallback, job, key);
      Concat(Entries(votes[..n], fallback), VoteEntries(last, fallback), job, key);
      if last.ext.Some? {
        ExtensionKeys(last.ext.value, last.ext.value.verifications, Weight(last, fallback), job, key);
      }
      SomeSnoc(votes, job, key);
    }
  }

  /** A vote adds at least its weight to an output it reports, and exactly that if it reports it once. */
  lemma VoteCounts(v: Vote, fallback: bool, job: bytes, key: bytes)
    ensures VoteUnrepeated(v) ==> Power(VoteEntries(v, fallback), job, key) == BackingWeight(job, key, fallback)(v)
    ensures VoteUnrepeated(v) ==> |Atts(VoteEntries(v, fallback), job, key)| == Backing(job, key)(v)
    ensures Weight(v, fallback) >= 0 ==>
              Power(VoteEntries(v, fallback), job, key) >= BackingWeight(job, key, fallback)(v)
  {
    if v.ext.Some? {
      var w, vs := Weight(v, fallback), v.ext.value.verifications;
      ExtensionTally(v.ext.value, vs, w, job, key);
      ReportsCount(vs, job, key);
      if w >= 0 && Reports(vs, job, key) > 0 {
        MulMono(w, 1, Reports(vs, job, key));
      }
    }
  }

  /** The power and the number of attestations tallied for an output are the weight and the number
      of the votes that report it. */
  lemma {:induction false} TallyCountsVotes(votes: seq<Vote>, fallback: bool, job: bytes, key: bytes)
    requires Unrepeated(votes)
    ensures Power(Entries(votes, fallback), job, key) == Sum(votes, BackingWeight(job, key, fallback))
    ensures |Atts(Entries(votes, fallback), job, key)| == Sum(votes, Backing(job, key))
  {
    if votes != [] {
      var n := |votes| - 1;
      TallyCountsVotes(votes[..n], fallback, job, key);
      Concat(Entries(votes[..n], fallback), VoteEntries(votes[n], fallback), job, key);
      VoteCounts(votes[n], fallback, job, key);
    }
  }

  lemma RegularUnrepeated(votes: seq<Vote>)
    requires Regular(votes)
    ensures Unrepeated(votes)
  {
  }

  /** The job and output that a vote reports twice, and is counted for twice. */
  lemma RepeatFound(v: Vote, fallback: bool) returns (job: bytes, key: bytes)
    requires !VoteUnrepeated(v) && Weight(v, fallback) > 0
    ensures Power(VoteEntries(v, fallback), job, key) > BackingWeight(job, key, fallback)(v)
  {
    var w, vs := Weight(v, fallback), v.ext.value.verifications;
    var i, j :| 0 <= i < j < |vs| && vs[i].success && vs[j].success
                && vs[i].jobID == vs[j].jobID && vs[i].outputHash == vs[j].outputHash;
    job, key := vs[i].jobID, Hex(vs[i].outputHash);
    RepeatCounted(vs, i, j);
    ExtensionTally(v.ext.value, vs, w, job, key);
    MulMono(w, 2, Reports(vs, job, key));
  }

  predicate OverCounted(v: Vote, fallback: bool, job: bytes, key: bytes)
  {
    Power(VoteEntries(v, fallback), job, key) > BackingWeight(job, key, fallback)(v)
  }

  lemma {:induction false} TallyAtLeast(votes: seq<Vote>, fallback: bool, job: bytes, key: bytes)
    requires forall i :: 0 <= i < |votes| ==> Weight(votes[i], fallback) > 0
    ensures Power(Entries(votes, fallback), job, key) >= Sum(votes, BackingWeight(job, key, fallback))
    ensures (exists i :: 0 <= i < |votes| && OverCounted(votes[i], fallback, job, key)) ==>
              Power(Entries(votes, fallback), job, key) > Sum(votes, BackingWeight(job, key, fallback))
  {
    if votes != [] {
      var n := |votes| - 1;
      TallyAtLeast(votes[..n], fallback, job, key);
      Concat(Entries(votes[..n], fallback), VoteEntries(votes[n], fallback), job, key);
      VoteCounts(votes[n], fallback, job, key);
      if exists i :: 0 <= i < |votes| && OverCounted(votes[i], fallback, job, key) {
        var i :| 0 <= i < |votes| && OverCounted(votes[i], fallback, job, key);
        assert i == n || OverCounted(votes[..n][i], fallback, job, key);
      }
    }
  }

  /** The tally of every output is the weight of the votes behind it. */
  ghost predicate CountsVotes(votes: seq<Vote>, fallback: bool)
  {
    forall job, key :: Power(Entries(votes, fallback), job, key) == Sum(votes, BackingWeight(job, key, fallback))
  }

  /** The code adds a vote's power once for every entry, so the tally counts the votes, for all jobs
      and outputs, exactly when no vote reports the same output of a job twice. */
  lemma {:induction false} CountedOnceIff(votes: seq<Vote>, fallback: bool)
    requires forall i :: 0 <= i < |votes| ==> Weight(votes[i], fallback) > 0
    ensures CountsVotes(votes, fallback) <==> Unrepeated(votes)
  {
    if Unrepeated(votes) {
      forall job, key
        ensures Power(Entries(votes, fallback), job, key) == Sum(votes, BackingWeight(job, key, fallback))
      {
        TallyCountsVotes(votes, fallback, job, key);
      }
    } else {
      var i :| 0 <= i < |votes| && !VoteUnrepeated(votes[i]);
      var job, key := RepeatFound(votes[i], fallback);
      assert OverCounted(votes[i], fallback, job, key);
      TallyAtLeast(votes, fallback, job, key);
    }
  }

  // ---------------------------------------------------------------- conservation

  function SumOver(keys: seq<bytes>, f: bytes -> int): int
  {
    if keys == [] then 0 else SumOver(keys[..|keys| - 1], f) + f(keys[|keys| - 1])
  }

  function PowerFor(es: seq<Entry>, job: bytes): bytes -> int
  {
    key => Power(es, job, key)
  }

  /** A list of a job's outputs without repetition, in any order: the keys of its map. */
  ghost predicate Enumerates(es: seq<Entry>, job: bytes, keys: seq<bytes>)
  {
    && (forall i, j :: 0 <= i < j < |keys| ==> keys[i] != keys[j])
    && (forall key :: HasKey(es, job, key) ==> key in keys)
  }

  lemma {:induction false} SumOverSnoc(es: seq<Entry>, e: Entry, job: bytes, keys: seq<bytes>)
    requires forall i, j :: 0 <= i < j < |keys| ==> keys[i] != keys[j]
    ensures SumOver(keys, PowerFor(es + [e], job)) == SumOver(keys, PowerFor(es, job)) +
              if e.job == job && e.key in keys then e.power else 0
  {
    if keys != [] {
      var n := |keys| - 1;
      SumOverSnoc(es, e, job, keys[..n]);
      Snoc(es, e, job, keys[n]);
      assert e.key in keys <==> e.key in keys[..n] || e.key == keys[n];
    }
  }

  function JobPower(es: seq<Entry>, job: bytes): int
  {
    if es == [] then 0
    else JobPower(es[..|es| - 1], job) + if es[|es| - 1].job == job then es[|es| - 1].power else 0
  }

  lemma {:induction false} SumOverNothing(keys: seq<bytes>, job: bytes)
    ensures SumOver(keys, PowerFor([], job)) == 0
  {
    if keys != [] {
      SumOverNothing(keys[..|keys| - 1], job);
    }
  }

  lemma {:induction false} OutputsAddUp(es: seq<Entry>, job: bytes, keys: seq<bytes>)
    requires Enumerates(es, job, keys)
    ensures SumOver(keys, PowerFor(es, job)) == JobPower(es, job)
  {
    if es == [] {
      SumOverNothing(keys, job);
    } else {
      var n := |es| - 1;
      assert es == es[..n] + [es[n]];
      forall key | HasKey(es[..n], job, key)
        ensures key in keys
      {
        Snoc(es[..n], es[n], job, key);
      }
      OutputsAddUp(es[..n], job, keys);
      Snoc(es[..n], es[n], job, es[n].key);
      SumOverSnoc(es[..n], es[n], job, keys);
    }
  }

  lemma {:induction false} JobPowerConcat(a: seq<Entry>, b: seq<Entry>, job: bytes)
    ensures JobPower(a + b, job) == JobPower(a, job) + JobPower(b, job)
  {
    if b == [] {
      assert a + b == a;
    } else {
      var n := |b| - 1;
      JobPowerConcat(a, b[..n], job);
      assert (a + b)[..|a + b| - 1] == a + b[..n];
    }
  }

  lemma {:induction false} ExtensionJobPower(ext: VoteExtension, vs: seq<ComputeVerification>, power: int64, job: bytes)
    requires OnePerJob(vs)
    ensures JobPower(EntriesIn(ext, vs, power), job) == if SucceedsIn(vs, job) then power else 0
  {
    if vs != [] {
      var n := |vs| - 1;
      ExtensionJobPower(ext, vs[..n], power, job);
      var front := EntriesIn(ext, vs[..n], power);
      JobPowerConcat(front, if vs[n].success then [EntryOf(ext, vs[n], power)] else [], job);
      assert SucceedsIn(vs, job) <==> SucceedsIn(vs[..n], job) || (vs[n].success && vs[n].jobID == job);
    }
  }

  lemma {:induction false} TallyJobPower(votes: seq<Vote>, fallback: bool, job: bytes)
    requires Regular(votes)
    ensures JobPower(Entries(votes, fallback), job) == Sum(votes, SuccessWeight(job, fallback))
  {
    if votes != [] {
      var n := |votes| - 1;
      TallyJobPower(votes[..n], fallback, job);
      JobPowerConcat(Entries(votes[..n], fallback), VoteEntries(votes[n], fallback), job);
      if votes[n].ext.Some? {
        ExtensionJobPower(votes[n].ext.value, votes[n].ext.value.verifications, Weight(votes[n], fallback), job);
      }
    }
  }

  // ---------------------------------------------------------------- at most one winner

  lemma BacksOne(v: Vote, job: bytes, key: bytes, other: bytes)
    requires v.ext.Some? ==> OnePerJob(v.ext.value.verifications)
    requires key != other && Backs(v, job, key)
    ensures !Backs(v, job, other)
  {
  }

  lemma {:induction false} TotalIsSum(votes: seq<Vote>)
    ensures TotalPower(votes) == Sum(votes, WeightOf(false))
    ensures Sum(votes, WeightOf(true)) == |votes|
  {
    if votes != [] {
      TotalIsSum(votes[..|votes| - 1]);
    }
  }

  /** Two outputs of one job share the total weight between them. */
  lemma PowersDisjoint(votes: seq<Vote>, fallback: bool, job: bytes, key: bytes, other: bytes)
    requires Regular(votes) && NonNegative(votes) && key != other
    ensures Power(Entries(votes, fallback), job, key) + Power(Entries(votes, fallback), job, other)
         <= Sum(votes, WeightOf(fallback))
  {
    RegularUnrepeated(votes);
    TallyCountsVotes(votes, fallback, job, key);
    TallyCountsVotes(votes, fallback, job, other);
    forall i | 0 <= i < |votes|
      ensures BackingWeight(job, key, fallback)(votes[i]) + BackingWeight(job, other, fallback)(votes[i])
           <= WeightOf(fallback)(votes[i])
    {
      if Backs(votes[i], job, key) {
        BacksOne(votes[i], job, key, other);
      }
    }
    SumPlusLe(votes, BackingWeight(job, key, fallback), BackingWeight(job, other, fallback), WeightOf(fallback));
  }

  lemma PowerBounds(votes: seq<Vote>, fallback: bool, job: bytes, key: bytes)
    requires Regular(votes) && NonNegative(votes)
    ensures 0 <= Power(Entries(votes, fallback), job, key) <= Sum(votes, WeightOf(fallback))
  {
    RegularUnrepeated(votes);
    TallyCountsVotes(votes, fallback, job, key);
    SumLe(votes, BackingWeight(job, key, fallback), WeightOf(fallback));
    SumNonNegative(votes, BackingWeight(job, key, fallback));
  }

  /** The int64 the code's map holds for each output. */
  function HeldFor(es: seq<Entry>, job: bytes): bytes -> int
  {
    key => Wrap64(Power(es, job, key))
  }

  lemma {:induction false} SumOverSame(keys: seq<bytes>, f: bytes -> int, g: bytes -> int)
    requires forall key :: f(key) == g(key)
    ensures SumOver(keys, f) == SumOver(keys, g)
  {
    if keys != [] {
      SumOverSame(keys[..|keys| - 1], f, g);
    }
  }

  /** Conservation: the powers of a job's outputs add up, in any order, to the weight of the votes
      that succeeded on it, which is at most the total weight; so do the int64 values the code holds,
      as long as the total weight is one. */
  lemma {:induction false} TallyConserves(votes: seq<Vote>, fallback: bool, job: bytes, keys: seq<bytes>)
    requires Regular(votes) && NonNegative(votes) && Enumerates(Entries(votes, fallback), job, keys)
    ensures SumOver(keys, PowerFor(Entries(votes, fallback), job)) == Sum(votes, SuccessWeight(job, fallback))
    ensures Sum(votes, SuccessWeight(job, fallback)) <= Sum(votes, WeightOf(fallback))
    ensures Sum(votes, WeightOf(fallback)) < TWO_63 ==>
              SumOver(keys, HeldFor(Entries(votes, fallback), job)) == Sum(votes, SuccessWeight(job, fallback))
  {
    OutputsAddUp(Entries(votes, fallback), job, keys);
    TallyJobPower(votes, fallback, job);
    SumLe(votes, SuccessWeight(job, fallback), WeightOf(fallback));
    if Sum(votes, WeightOf(fallback)) < TWO_63 {
      forall key
        ensures HeldFor(Entries(votes, fallback), job)(key) == PowerFor(Entries(votes, fallback), job)(key)
      {
        PowerBounds(votes, fallback, job, key);
      }
      SumOverSame(keys, HeldFor(Entries(votes, fallback), job), PowerFor(Entries(votes, fallback), job));
    }
  }

  /** The products and sums the code forms are int64. */
  predicate NoOverflow(votes: seq<Vote>, threshold: int64)
  {
    && TotalPower(votes) < TWO_63 && |votes| < TWO_63
    && -TWO_63 <= TotalPower(votes) * threshold < TWO_63 && -TWO_63 <= |votes| * threshold < TWO_63
  }

  /** What the totals fix when nothing overflows. */
  lemma SetupFacts(votes: seq<Vote>, threshold: int64, allowSimulated: bool)
    requires NonNegative(votes) && NoOverflow(votes, threshold)
    requires SetupOf(votes, threshold, allowSimulated).Setup?
    ensures var s := SetupOf(votes, threshold, allowSimulated);
      && s.total == Sum(votes, WeightOf(s.fallback)) >= 0
      && s.required == TruncDiv(s.total * threshold, 100) + 1
  {
    TotalIsSum(votes);
    SumNonNegative(votes, WeightOf(false));
  }

  lemma HalfOf(total: int, threshold: int)
    requires total >= 0 && threshold >= 50
    ensures 2 * (total * threshold / 100 + 1) > total
  {
    MulMono(total, 50, threshold);
  }

  /** With a threshold of at least 50 percent no two outputs of a job reach the required power. */
  lemma {:induction false} UniqueWinner(votes: seq<Vote>, threshold: int64, allowSimulated: bool, job: bytes,
                                        key: bytes, other: bytes)
    requires Regular(votes) && NonNegative(votes) && NoOverflow(votes, threshold) && threshold >= 50
    requires SetupOf(votes, threshold, allowSimulated).Setup?
    requires var s := SetupOf(votes, threshold, allowSimulated);
      && Reaches(Entries(votes, s.fallback), s.required, job, key)
      && Reaches(Entries(votes, s.fallback), s.required, job, other)
    ensures key == other
  {
    var s := SetupOf(votes, threshold, allowSimulated);
    SetupFacts(votes, threshold, allowSimulated);
    PowerBounds(votes, s.fallback, job, key);
    PowerBounds(votes, s.fallback, job, other);
    HalfOf(s.total, threshold);
    if key != other {
      PowersDisjoint(votes, s.fallback, job, key, other);
    }
  }

  /** The hypotheses under which the aggregation is well determined. */
  predicate WellPosed(votes: seq<Vote>, threshold: int64)
  {
    Regular(votes) && NonNegative(votes) && NoOverflow(votes, threshold) && threshold >= 50
  }

  lemma JobOutcomeUnique(votes: seq<Vote>, threshold: int64, allowSimulated: bool, blockTime: int, job: bytes,
                         a: Aggregated, b: Aggregated)
    requires WellPosed(votes, threshold)
    requires SetupOf(votes, threshold, allowSimulated).Setup?
    requires var s := SetupOf(votes, threshold, allowSimulated);
      var es := Entries(votes, s.fallback);
      && HasJob(es, job)
      && JobOutcome(es, |votes|, s, blockTime, job, a) && JobOutcome(es, |votes|, s, blockTime, job, b)
    ensures a == b
  {
    var s := SetupOf(votes, threshold, allowSimulated);
    var es := Entries(votes, s.fallback);
    if k: bytes :| Reaches(es, s.required, job, k) {
      var init := Initial(First(es, job), |votes|, s.total);
      var x :| Reaches(es, s.required, job, x) && a == Won(init, es, x, blockTime);
      var y :| Reaches(es, s.required, job, y) && b == Won(init, es, y, blockTime);
      UniqueWinner(votes, threshold, allowSimulated, job, x, y);
    }
  }

  /** The result is the same for every order in which the maps are iterated. */
  lemma {:induction false} MapOrderIrrelevant(votes: seq<Vote>, threshold: int64, allowSimulated: bool, blockTime: int,
                                              r: map<bytes, Aggregated>, q: map<bytes, Aggregated>)
    requires WellPosed(votes, threshold)
    requires IsAggregate(votes, threshold, allowSimulated, blockTime, r)
    requires IsAggregate(votes, threshold, allowSimulated, blockTime, q)
    ensures r == q
  {
    var s := SetupOf(votes, threshold, allowSimulated);
    if s.Setup? {
      var es := Entries(votes, s.fallback);
      assert r.Keys == q.Keys;
      forall job | job in r
        ensures r[job] == q[job]
      {
        JobOutcomeUnique(votes, threshold, allowSimulated, blockTime, job, r[job], q[job]);
      }
    }
  }

  /** The verdict on a job: everything but the copied model and input hashes and the order of the
      attestations. */
  predicate SameVerdict(a: Aggregated, b: Aggregated)
  {
    && a.jobID == b.jobID && a.hasConsensus == b.hasConsensus && a.outputHash == b.outputHash
    && a.agreementPower == b.agreementPower && a.validatorCount == b.validatorCount
    && a.totalPower == b.totalPower && a.totalVotes == b.totalVotes
  }

  lemma RegularPermutes(votes: seq<Vote>, other: seq<Vote>)
    requires multiset(votes) == multiset(other) && Regular(votes)
    ensures Regular(other)
  {
    forall i | 0 <= i < |other| && other[i].ext.Some?
      ensures OnePerJob(other[i].ext.value.verifications)
    {
      assert other[i] in multiset(votes);
      var j :| 0 <= j < |votes| && votes[j] == other[i];
    }
  }

  lemma SomePermutes(votes: seq<Vote>, other: seq<Vote>, job: bytes, key: bytes)
    requires multiset(votes) == multiset(other)
    ensures SomeBacks(votes, job, key) ==> SomeBacks(other, job, key)
    ensures SomeSucceeds(votes, job) ==> SomeSucceeds(other, job)
  {
    if i :| 0 <= i < |votes| && Backs(votes[i], job, key) {
      assert votes[i] in multiset(other);
      var j :| 0 <= j < |other| && other[j] == votes[i];
    }
    if i :| 0 <= i < |votes| && Succeeds(votes[i], job) {
      assert votes[i] in multiset(other);
      var j :| 0 <= j < |other| && other[j] == votes[i];
    }
  }

  /** Reordering the votes changes neither the jobs and outputs seen nor what they tally to. */
  lemma TallyPermutes(votes: seq<Vote>, other: seq<Vote>, fallback: bool, job: bytes, key: bytes)
    requires multiset(votes) == multiset(other) && Regular(votes)
    ensures HasJob(Entries(votes, fallback), job) == HasJob(Entries(other, fallback), job)
    ensures HasKey(Entries(votes, fallback), job, key) == HasKey(Entries(other, fallback), job, key)
    ensures Power(Entries(votes, fallback), job, key) == Power(Entries(other, fallback), job, key)
    ensures |Atts(Entries(votes, fallback), job, key)| == |Atts(Entries(other, fallback), job, key)|
  {
    RegularPermutes(votes, other);
    TalliedKeys(votes, fallback, job, key);
    TalliedKeys(other, fallback, job, key);
    SomePermutes(votes, other, job, key);
    SomePermutes(other, votes, job, key);
    RegularUnrepeated(votes);
    RegularUnrepeated(other);
    TallyCountsVotes(votes, fallback, job, key);
    TallyCountsVotes(other, fallback, job, key);
    SumPermutes(votes, other, BackingWeight(job, key, fallback));
    SumPermutes(votes, other, Backing(job, key));
  }

  lemma SetupPermutes(votes: seq<Vote>, other: seq<Vote>, threshold: int64, allowSimulated: bool)
    requires multiset(votes) == multiset(other)
    ensures |votes| == |other|
    ensures SetupOf(votes, threshold, allowSimulated) == SetupOf(other, threshold, allowSimulated)
  {
    assert |votes| == |multiset(votes)| == |multiset(other)| == |other|;
    TotalIsSum(votes);
    TotalIsSum(other);
    SumPermutes(votes, other, WeightOf(false));
  }

  lemma VerdictPermutes(votes: seq<Vote>, other: seq<Vote>, threshold: int64, allowSimulated: bool, blockTime: int,
                        job: bytes, a: Aggregated, b: Aggregated)
    requires WellPosed(votes, threshold) && multiset(votes) == multiset(other) && |votes| == |other|
    requires SetupOf(votes, threshold, allowSimulated).Setup?
    requires var s := SetupOf(votes, threshold, allowSimulated);
      && HasJob(Entries(votes, s.fallback), job) && HasJob(Entries(other, s.fallback), job)
      && JobOutcome(Entries(votes, s.fallback), |votes|, s, blockTime, job, a)
      && JobOutcome(Entries(other, s.fallback), |other|, s, blockTime, job, b)
    ensures SameVerdict(a, b)
  {
    var s := SetupOf(votes, threshold, allowSimulated);
    var es, fs := Entries(votes, s.fallback), Entries(other, s.fallback);
    FirstJob(es, job);
    FirstJob(fs, job);
    forall key
      ensures Reaches(es, s.required, job, key) == Reaches(fs, s.required, job, key)
      ensures Power(es, job, key) == Power(fs, job, key) && |Atts(es, job, key)| == |Atts(fs, job, key)|
    {
      TallyPermutes(votes, other, s.fallback, job, key);
    }
    if k: bytes :| Reaches(es, s.required, job, k) {
      assert Reaches(fs, s.required, job, k);
      var x :| Reaches(es, s.required, job, x) && a == Won(Initial(First(es, job), |votes|, s.total), es, x, blockTime);
      var y :| Reaches(fs, s.required, job, y) && b == Won(Initial(First(fs, job), |other|, s.total), fs, y, blockTime);
      assert Reaches(es, s.required, job, y);
      UniqueWinner(votes, threshold, allowSimulated, job, x, y);
    }
  }

  /** Reordering the votes, under any two iteration orders, leaves every job's verdict unchanged. */
  lemma {:induction false} VoteOrderIrrelevant(votes: seq<Vote>, other: seq<Vote>, threshold: int64,
                                               allowSimulated: bool, blockTime: int, r: map<bytes, Aggregated>,
                                               q: map<bytes, Aggregated>)
    requires WellPosed(votes, threshold) && multiset(votes) == multiset(other)
    requires IsAggregate(votes, threshold, allowSimulated, blockTime, r)
    requires IsAggregate(other, threshold, allowSimulated, blockTime, q)
    ensures r.Keys == q.Keys
    ensures forall job :: job in r ==> SameVerdict(r[job], q[job])
  {
    SetupPermutes(votes, other, threshold, allowSimulated);
    var s := SetupOf(votes, threshold, allowSimulated);
    if s.Setup? {
      forall job
        ensures job in r.Keys <==> job in q.Keys
      {
        TallyPermutes(votes, other, s.fallback, job, []);
      }
      forall job | job in r
        ensures SameVerdict(r[job], q[job])
      {
        assert job in q.Keys;
        VerdictPermutes(votes, other, threshold, allowSimulated, blockTime, job, r[job], q[job]);
      }
    }
  }

  // ---------------------------------------------------------------- the votes behind a winner

  /** The votes behind an output, in order. */
  function Backers(votes: seq<Vote>, job: bytes, key: bytes): seq<Vote>
  {
    if votes == [] then []
    else
      Backers(votes[..|votes| - 1], job, key) +
      if Backs(votes[|votes| - 1], job, key) then [votes[|votes| - 1]] else []
  }

  /** The attestation names the extension's validator and instant, and repeats the entry's output and proof. */
  predicate Attests(att: ValidatorAttestation, ext: VoteExtension, v: ComputeVerification)
  {
    && att.validatorAddress == ext.validatorAddress && att.timestamp == ext.timestamp
    && att.outputHash == v.outputHash && att.attestationType == v.attestationType
    && att.tee == v.tee && att.zk == v.zk && att.executionTimeMs == v.executionTimeMs
  }

  predicate AttestedIn(att: ValidatorAttestation, ext: VoteExtension, vs: seq<ComputeVerification>, job: bytes,
                       key: bytes)
  {
    exists i :: 0 <= i < |vs| && Reporting(vs[i], job, key) && Attests(att, ext, vs[i])
  }

  /** att is the attestation of a successful entry for the job and output in the vote. */
  predicate AttestedBy(att: ValidatorAttestation, v: Vote, job: bytes, key: bytes)
  {
    v.ext.Some? && AttestedIn(att, v.ext.value, v.ext.value.verifications, job, key)
  }

  lemma {:induction false} ExtensionAttests(ext: VoteExtension, vs: seq<ComputeVerification>, power: int64,
                                            job: bytes, key: bytes)
    ensures forall k :: 0 <= k < |Atts(EntriesIn(ext, vs, power), job, key)| ==>
              AttestedIn(Atts(EntriesIn(ext, vs, power), job, key)[k], ext, vs, job, key)
  {
    if vs != [] {
      var n := |vs| - 1;
      var front := EntriesIn(ext, vs[..n], power);
      ExtensionAttests(ext, vs[..n], power, job, key);
      if vs[n].success {
        Snoc(front, EntryOf(ext, vs[n], power), job, key);
      } else {
        assert front + [] == front;
      }
      forall att | AttestedIn(att, ext, vs[..n], job, key)
        ensures AttestedIn(att, ext, vs, job, key)
      {
        var i :| 0 <= i < n && Reporting(vs[i], job, key) && Attests(att, ext, vs[i]);
      }
    }
  }

  lemma VoteAttests(v: Vote, fallback: bool, job: bytes, key: bytes)
    ensures forall k :: 0 <= k < |Atts(VoteEntries(v, fallback), job, key)| ==>
              AttestedBy(Atts(VoteEntries(v, fallback), job, key)[k], v, job, key)
  {
    if v.ext.Some? {
      ExtensionAttests(v.ext.value, v.ext.value.verifications, Weight(v, fallback), job, key);
    }
  }

  /** Attestation by attestation, these are the votes. */
  predicate AttestedByAll(atts: seq<ValidatorAttestation>, votes: seq<Vote>, job: bytes, key: bytes)
  {
    |atts| == |votes| && forall k :: 0 <= k < |atts| ==> AttestedBy(atts[k], votes[k], job, key)
  }

  lemma VoteAttested(v: Vote, fallback: bool, job: bytes, key: bytes)
    requires VoteUnrepeated(v)
    ensures AttestedByAll(Atts(VoteEntries(v, fallback), job, key), if Backs(v, job, key) then [v] else [], job, key)
  {
    VoteCounts(v, fallback, job, key);
    VoteAttests(v, fallback, job, key);
  }

  lemma AttestedTogether(a: seq<ValidatorAttestation>, b: seq<ValidatorAttestation>, x: seq<Vote>, y: seq<Vote>,
                         job: bytes, key: bytes)
    requires AttestedByAll(a, x, job, key) && AttestedByAll(b, y, job, key)
    ensures AttestedByAll(a + b, x + y, job, key)
  {
  }

  /** The tally lists exactly the votes behind the output, in order. */
  lemma {:induction false} AttestationsAreBackers(votes: seq<Vote>, fallback: bool, job: bytes, key: bytes)
    requires Regular(votes)
    ensures AttestedByAll(Atts(Entries(votes, fallback), job, key), Backers(votes, job, key), job, key)
  {
    if votes != [] {
      var n := |votes| - 1;
      var front, back := Entries(votes[..n], fallback), VoteEntries(votes[n], fallback);
      AttestationsAreBackers(votes[..n], fallback, job, key);
      RegularUnrepeated(votes);
      VoteAttested(votes[n], fallback, job, key);
      Concat(front, back, job, key);
      AttestedTogether(Atts(front, job, key), Atts(back, job, key), Backers(votes[..n], job, key),
                       if Backs(votes[n], job, key) then [votes[n]] else [], job, key);
    }
  }

  lemma KeyIsHex(votes: seq<Vote>, fallback: bool, job: bytes, key: bytes)
    requires HasKey(Entries(votes, fallback), job, key)
    ensures key == Hex(Unhexed(key))
  {
    TalliedKeys(votes, fallback, job, key);
    var i :| 0 <= i < |votes| && Backs(votes[i], job, key);
    var vs := votes[i].ext.value.verifications;
    var k :| 0 <= k < |vs| && Reporting(vs[k], job, key);
    HexRoundTrip(vs[k].outputHash);
  }

  lemma {:induction false} BackersBound(votes: seq<Vote>, job: bytes, key: bytes)
    ensures |Backers(votes, job, key)| <= |votes|
  {
    if votes != [] {
      BackersBound(votes[..|votes| - 1], job, key);
    }
  }

  lemma AttestedOutput(att: ValidatorAttestation, v: Vote, job: bytes, key: bytes)
    requires AttestedBy(att, v, job, key) && key == Hex(Unhexed(key))
    ensures att.outputHash == Unhexed(key)
  {
    HexInjective(att.outputHash, Unhexed(key));
  }

  /** A winner's power and count are those of exactly the votes that report its output, and its
      attestations are theirs, one each and in order. */
  lemma {:induction false} WinnerIsBacked(votes: seq<Vote>, threshold: int64, allowSimulated: bool, blockTime: int,
                                          results: map<bytes, Aggregated>, job: bytes)
    requires Regular(votes) && NonNegative(votes) && NoOverflow(votes, threshold)
    requires IsAggregate(votes, threshold, allowSimulated, blockTime, results)
    requires job in results && results[job].hasConsensus
    ensures var a := results[job];
      var key := Hex(a.outputHash);
      var s := SetupOf(votes, threshold, allowSimulated);
      && s.Setup?
      && a.jobID == job && a.totalVotes == |votes| && a.totalPower == s.total
      && a.agreementPower == Sum(votes, BackingWeight(job, key, s.fallback)) >= s.required
      && a.validatorCount == |a.attestations| == |Backers(votes, job, key)| <= |votes|
      && forall k :: 0 <= k < |a.attestations| ==>
           AttestedBy(a.attestations[k], Backers(votes, job, key)[k], job, key)
           && a.attestations[k].outputHash == a.outputHash
  {
    var s := SetupOf(votes, threshold, allowSimulated);
    var es := Entries(votes, s.fallback);
    var init := Initial(First(es, job), |votes|, s.total);
    FirstJob(es, job);
    var key :| Reaches(es, s.required, job, key) && results[job] == Won(init, es, key, blockTime);
    KeyIsHex(votes, s.fallback, job, key);
    SetupFacts(votes, threshold, allowSimulated);
    PowerBounds(votes, s.fallback, job, key);
    RegularUnrepeated(votes);
    TallyCountsVotes(votes, s.fallback, job, key);
    AttestationsAreBackers(votes, s.fallback, job, key);
    BackersBound(votes, job, key);
    forall k | 0 <= k < |results[job].attestations|
      ensures results[job].attestations[k].outputHash == results[job].outputHash
    {
      AttestedOutput(results[job].attestations[k], Backers(votes, job, key)[k], job, key);
    }
  }

  // ---------------------------------------------------------------- what a result says of its job

  predicate FirstIn(vs: seq<ComputeVerification>, job: bytes, i: nat)
  {
    && i < |vs| && vs[i].success && vs[i].jobID == job
    && forall k :: 0 <= k < i ==> !(vs[k].success && vs[k].jobID == job)
  }

  /** Entry i of vote n is the first successful one for the job, by vote and then by entry. */
  predicate FirstReport(votes: seq<Vote>, job: bytes, n: nat, i: nat)
  {
    && n < |votes| && votes[n].ext.Some?
    && FirstIn(votes[n].ext.value.verifications, job, i)
    && forall k :: 0 <= k < n ==> !Succeeds(votes[k], job)
  }

  lemma {:induction false} FirstConcat(a: seq<Entry>, b: seq<Entry>, job: bytes)
    requires HasJob(a, job) || HasJob(b, job)
    ensures HasJob(a + b, job) && First(a + b, job) == if HasJob(a, job) then First(a, job) else First(b, job)
  {
    Concat(a, b, job, []);
    if b == [] {
      assert a + b == a;
    } else {
      var n := |b| - 1;
      assert (a + b)[..|a + b| - 1] == a + b[..n];
      Concat(a, b[..n], job, []);
      if HasJob(a, job) || HasJob(b[..n], job) {
        FirstConcat(a, b[..n], job);
      }
    }
  }

  /** The first entry of an extension for a job, with what it says of model and input. */
  predicate Names(e: Entry, v: ComputeVerification) { e.model == v.modelHash && e.input == v.inputHash }

  lemma {:induction false} FirstInExtension(ext: VoteExtension, vs: seq<ComputeVerification>, power: int64, job: bytes)
    returns (i: nat)
    requires HasJob(EntriesIn(ext, vs, power), job)
    ensures FirstIn(vs, job, i)
    ensures Names(First(EntriesIn(ext, vs, power), job), vs[i])
  {
    var n := |vs| - 1;
    var front := EntriesIn(ext, vs[..n], power);
    var last := if vs[n].success then [EntryOf(ext, vs[n], power)] else [];
    Concat(front, last, job, []);
    FirstConcat(front, last, job);
    ExtensionKeys(ext, vs[..n], power, job, []);
    if HasJob(front, job) {
      i := FirstInExtension(ext, vs[..n], power, job);
    } else {
      i := n;
      assert last[..0] == [];
      forall k | 0 <= k < n
        ensures !(vs[k].success && vs[k].jobID == job)
      {
        assert vs[..n][k] == vs[k];
      }
    }
  }

  lemma FirstInVote(v: Vote, fallback: bool, job: bytes) returns (i: nat)
    requires HasJob(VoteEntries(v, fallback), job)
    ensures v.ext.Some? && FirstIn(v.ext.value.verifications, job, i)
    ensures Names(First(VoteEntries(v, fallback), job), v.ext.value.verifications[i])
  {
    var ext := v.ext.value;
    i := FirstInExtension(ext, ext.verifications, Weight(v, fallback), job);
  }

  lemma ReportKept(votes: seq<Vote>, job: bytes, n: nat, i: nat)
    requires votes != [] && FirstReport(votes[..|votes| - 1], job, n, i)
    ensures FirstReport(votes, job, n, i)
  {
    forall k | 0 <= k < n
      ensures !Succeeds(votes[k], job)
    {
      assert votes[..|votes| - 1][k] == votes[k];
    }
  }

  lemma ReportAtLast(votes: seq<Vote>, job: bytes, i: nat)
    requires votes != [] && votes[|votes| - 1].ext.Some? && !SomeSucceeds(votes[..|votes| - 1], job)
    requires FirstIn(votes[|votes| - 1].ext.value.verifications, job, i)
    ensures FirstReport(votes, job, |votes| - 1, i)
  {
    forall k | 0 <= k < |votes| - 1
      ensures !Succeeds(votes[k], job)
    {
      assert votes[..|votes| - 1][k] == votes[k];
    }
  }

  lemma {:induction false} FirstInVotes(votes: seq<Vote>, fallback: bool, job: bytes) returns (n: nat, i: nat)
    requires HasJob(Entries(votes, fallback), job)
    ensures FirstReport(votes, job, n, i)
    ensures Names(First(Entries(votes, fallback), job), votes[n].ext.value.verifications[i])
  {
    var last := |votes| - 1;
    var front, back := Entries(votes[..last], fallback), VoteEntries(votes[last], fallback);
    Concat(front, back, job, []);
    FirstConcat(front, back, job);
    if HasJob(front, job) {
      n, i := FirstInVotes(votes[..last], fallback, job);
      ReportKept(votes, job, n, i);
    } else {
      TalliedKeys(votes[..last], fallback, job, []);
      n := last;
      i := FirstInVote(votes[last], fallback, job);
      ReportAtLast(votes, job, i);
    }
  }

  /** What the result for a job says whether or not it reached consensus. */
  predicate Describes(a: Aggregated, job: bytes, v: ComputeVerification, totalVotes: nat, totalPower: int,
                      blockTime: int)
  {
    && a.jobID == job && a.modelHash == v.modelHash && a.inputHash == v.inputHash
    && a.totalVotes == totalVotes && a.totalPower == totalPower
    && (if a.hasConsensus then a.consensusReached == blockTime
        else a.outputHash == [] && a.validatorCount == 0 && a.agreementPower == 0 && a.attestations == []
             && a.consensusReached == 0)
  }

  lemma OutcomeDescribes(es: seq<Entry>, totalVotes: nat, s: Setup, blockTime: int, job: bytes, a: Aggregated)
    requires s.Setup? && HasJob(es, job) && First(es, job).job == job
    requires JobOutcome(es, totalVotes, s, blockTime, job, a)
    ensures a.jobID == job && a.modelHash == First(es, job).model && a.inputHash == First(es, job).input
    ensures a.totalVotes == totalVotes && a.totalPower == s.total
    ensures if a.hasConsensus then a.consensusReached == blockTime
            else a.outputHash == [] && a.validatorCount == 0 && a.agreementPower == 0 && a.attestations == []
                 && a.consensusReached == 0
    ensures a.hasConsensus <==> exists key :: Reaches(es, s.required, job, key)
  {
  }

  /** There is a result for exactly the jobs some vote succeeds on, or none at all if the votes have no power and
      simulation is not allowed. It carries the model and input hash of the first successful entry for the
      job, and nothing of an output unless one won. */
  lemma {:induction false} ResultDescribesJob(votes: seq<Vote>, threshold: int64, allowSimulated: bool, blockTime: int,
                                              results: map<bytes, Aggregated>, job: bytes)
    requires IsAggregate(votes, threshold, allowSimulated, blockTime, results)
    ensures job in results <==> SomeSucceeds(votes, job) && (Wrap64(TotalPower(votes)) == 0 ==> allowSimulated)
    ensures job in results ==> exists n: nat, i: nat ::
      && FirstReport(votes, job, n, i)
      && Describes(results[job], job, votes[n].ext.value.verifications[i], |votes|,
                   if Wrap64(TotalPower(votes)) == 0 then Wrap64(|votes|) else Wrap64(TotalPower(votes)), blockTime)
  {
    var s := SetupOf(votes, threshold, allowSimulated);
    if s.Setup? {
      var es := Entries(votes, s.fallback);
      TalliedKeys(votes, s.fallback, job, []);
      assert job in results.Keys <==> HasJob(es, job);
      if job in results {
        var n, i := FirstInVotes(votes, s.fallback, job);
        FirstJob(es, job);
        OutcomeDescribes(es, |votes|, s, blockTime, job, results[job]);
        assert FirstReport(votes, job, n, i);
      }
    }
  }

  /** Backed strictly beyond the percentage. */
  predicate Beyond(weight: int, total: int, threshold: int) { 100 * weight > threshold * total }

  lemma BeyondIff(weight: int, total: nat, threshold: nat)
    ensures weight >= total * threshold / 100 + 1 <==> Beyond(weight, total, threshold)
  {
    var p := total * threshold;
    assert p == threshold * total;
    assert p == 100 * (p / 100) + p % 100;
  }

  lemma BackedSucceeds(votes: seq<Vote>, job: bytes, key: bytes)
    ensures SomeBacks(votes, job, key) ==> SomeSucceeds(votes, job)
  {
    if SomeBacks(votes, job, key) {
      var i :| 0 <= i < |votes| && Backs(votes[i], job, key);
      assert Succeeds(votes[i], job);
    }
  }

  lemma NoVotes(job: bytes)
    ensures !HasJob(Entries([], false), job) && forall key :: !SomeBacks([], job, key)
  {
  }

  lemma ReachesIff(votes: seq<Vote>, s: Setup, threshold: int64, job: bytes, key: bytes)
    requires Regular(votes) && NonNegative(votes) && threshold >= 0 && s.Setup?
    requires s.total == Sum(votes, WeightOf(s.fallback)) >= 0
    requires s.required == TruncDiv(s.total * threshold, 100) + 1
    ensures Reaches(Entries(votes, s.fallback), s.required, job, key) <==>
      SomeBacks(votes, job, key) && Beyond(Sum(votes, BackingWeight(job, key, s.fallback)), s.total, threshold)
  {
    TalliedKeys(votes, s.fallback, job, key);
    PowerBounds(votes, s.fallback, job, key);
    RegularUnrepeated(votes);
    TallyCountsVotes(votes, s.fallback, job, key);
    MulMono(s.total, 0, threshold);
    BeyondIff(Sum(votes, BackingWeight(job, key, s.fallback)), s.total, threshold);
  }

  /** A job reaches consensus exactly when the votes behind one of its outputs weigh strictly more than the
      percentage of all votes. Votes weigh their power; if none has any, each weighs 1 where simulation is
      allowed, and nothing is decided where it is not. */
  lemma {:induction false} ConsensusIff(votes: seq<Vote>, threshold: int64, allowSimulated: bool, blockTime: int,
                                        results: map<bytes, Aggregated>, job: bytes)
    requires Regular(votes) && NonNegative(votes) && NoOverflow(votes, threshold) && threshold >= 0
    requires IsAggregate(votes, threshold, allowSimulated, blockTime, results)
    ensures var zero := TotalPower(votes) == 0;
      (job in results && results[job].hasConsensus) <==>
        && (zero ==> allowSimulated)
        && exists key :: SomeBacks(votes, job, key) &&
             Beyond(Sum(votes, BackingWeight(job, key, zero)), if zero then |votes| else TotalPower(votes), threshold)
  {
    var s := SetupOf(votes, threshold, allowSimulated);
    TotalIsSum(votes);
    SumNonNegative(votes, WeightOf(false));
    if votes == [] {
      NoVotes(job);
    } else if s.Setup? {
      SetupFacts(votes, threshold, allowSimulated);
      var es := Entries(votes, s.fallback);
      TalliedKeys(votes, s.fallback, job, []);
      assert job in results.Keys <==> HasJob(es, job);
      forall key
        ensures Reaches(es, s.required, job, key) <==>
          SomeBacks(votes, job, key) && Beyond(Sum(votes, BackingWeight(job, key, s.fallback)), s.total, threshold)
        ensures SomeBacks(votes, job, key) ==> HasJob(es, job)
      {
        ReachesIff(votes, s, threshold, job, key);
        BackedSucceeds(votes, job, key);
      }
      if job in results {
        FirstJob(es, job);
        OutcomeDescribes(es, |votes|, s, blockTime, job, results[job]);
      }
    }
  }

  // ---------------------------------------------------------------- the threshold is exact

  /** Two different outputs of one job reach the required power. */
  predicate TwoWinners(votes: seq<Vote>, threshold: int64, job: bytes, key: bytes, other: bytes)
  {
    var s := SetupOf(votes, threshold, false);
    && s.Setup? && key != other
    && Reaches(Entries(votes, s.fallback), s.required, job, key)
    && Reaches(Entries(votes, s.fallback), s.required, job, other)
  }

  function Report(output: bytes): (v: Vote)
    ensures v.ext.Some?
  {
    var entry := ComputeVerification([1], [], [], output, [], None, None, 1, true, [], [], []);
    Vote(Some(VoteExtension(1, 1, [1], [entry], 0, [], [], [])), 1)
  }

  lemma ReportBacks(output: bytes, key: bytes)
    ensures Backs(Report(output), [1], key) <==> key == Hex(output)
    ensures OnePerJob(Report(output).ext.value.verifications)
  {
    var vs := Report(output).ext.value.verifications;
    assert vs[0].success && vs[0].jobID == [1] && vs[0].outputHash == output;
  }

  lemma SumOfTwo(votes: seq<Vote>, f: Vote -> int)
    requires |votes| == 2
    ensures Sum(votes, f) == f(votes[0]) + f(votes[1])
  {
    assert votes[..1] == [votes[0]] && [votes[0]][..0] == [];
    assert Sum([votes[0]], f) == Sum([], f) + f(votes[0]);
  }

  lemma EvenSplit(v: Vote, w: Vote, threshold: int64, kv: bytes, kw: bytes)
    requires 0 <= threshold < 50 && v.power == w.power == 1 && kv != kw && Regular([v, w])
    requires Backs(v, [1], kv) && !Backs(w, [1], kv) && Backs(w, [1], kw) && !Backs(v, [1], kw)
    ensures NoOverflow([v, w], threshold) && TwoWinners([v, w], threshold, [1], kv, kw)
  {
    var votes := [v, w];
    TotalIsSum(votes);
    SumOfTwo(votes, WeightOf(false));
    assert SomeBacks(votes, [1], kv) by { assert Backs(votes[0], [1], kv); }
    assert SomeBacks(votes, [1], kw) by { assert Backs(votes[1], [1], kw); }
    TalliedKeys(votes, false, [1], kv);
    TalliedKeys(votes, false, [1], kw);
    RegularUnrepeated(votes);
    TallyCountsVotes(votes, false, [1], kv);
    TallyCountsVotes(votes, false, [1], kw);
    SumOfTwo(votes, BackingWeight([1], kv, false));
    SumOfTwo(votes, BackingWeight([1], kw, false));
  }

  lemma HexTellsApart(x: bytes, y: bytes)
    requires x != y
    ensures Hex(x) != Hex(y)
  {
    HexRoundTrip(x);
    HexRoundTrip(y);
  }

  lemma ReportsSplit(x: bytes, y: bytes, threshold: int64)
    requires 0 <= threshold < 50 && x != y
    ensures var votes := [Report(x), Report(y)];
      && Regular(votes) && NonNegative(votes) && NoOverflow(votes, threshold)
      && TwoWinners(votes, threshold, [1], Hex(x), Hex(y))
  {
    HexTellsApart(x, y);
    ReportBacks(x, Hex(x));
    ReportBacks(x, Hex(y));
    ReportBacks(y, Hex(x));
    ReportBacks(y, Hex(y));
    EvenSplit(Report(x), Report(y), threshold, Hex(x), Hex(y));
  }

  lemma SplitVote(threshold: int64)
    requires 0 <= threshold < 50
    ensures exists votes, job, key, other :: Regular(votes) && NonNegative(votes) && NoOverflow(votes, threshold)
              && TwoWinners(votes, threshold, job, key, other)
  {
    var x: bytes, y: bytes := [0], [1];
    assert x[0] != y[0];
    ReportsSplit(x, y, threshold);
  }

  /** A percentage rules two winners out, for all regular votes, exactly when it is at least 50. */
  lemma {:induction false} ThresholdExact(threshold: int64)
    requires 0 <= threshold <= 100
    ensures threshold >= 50 <==>
      forall votes, job, key, other :: Regular(votes) && NonNegative(votes) && NoOverflow(votes, threshold)
        ==> !TwoWinners(votes, threshold, job, key, other)
  {
    if threshold >= 50 {
      forall votes, job, key, other | Regular(votes) && NonNegative(votes) && NoOverflow(votes, threshold)
        ensures !TwoWinners(votes, threshold, job, key, other)
      {
        if TwoWinners(votes, threshold, job, key, other) {
          UniqueWinner(votes, threshold, false, job, key, other);
        }
      }
    } else {
      SplitVote(threshold);
    }
  }
}
