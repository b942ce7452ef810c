/**
 The canonical order of verifications (SortVerifications in app/vote_extension.go). The library
 sort is unstable, so all that is used of it is its contract: the result is sorted by JobID and
 is a permutation. The main result says when that contract fixes the result.
 */
module Ordering {
  import opened Encoding
  import opened VoteTypes

  /** What sort.Slice with "JobID <" promises. */
  predicate SortedByJob(s: seq<ComputeVerification>)
  {
    forall i, j :: 0 <= i < j < |s| ==> !Less(s[j].jobID, s[i].jobID)
  }

  ghost predicate SortOf(s: seq<ComputeVerification>, xs: seq<ComputeVerification>)
  {
    SortedByJob(s) && multiset(s) == multiset(xs)
  }

  lemma NotLessTransitive(a: bytes, b: bytes, c: bytes)
    requires !Less(b, a) && !Less(c, b)
    ensures !Less(c, a)
  {
    if Less(c, a) {
      LessTrichotomy(a, b);
      LessTrichotomy(b, c);
      if a == b {
      } else if b == c {
      } else {
        LessTransitive(a, b, c);
        LessTrichotomy(a, c);
      }
    }
  }

  lemma BelowAll(v: ComputeVerification, s: seq<ComputeVerification>)
    requires s != [] && SortedByJob(s) && !Less(s[0].jobID, v.jobID)
    ensures forall i :: 0 <= i < |s| ==> !Less(s[i].jobID, v.jobID)
  {
    forall i | 0 <= i < |s|
      ensures !Less(s[i].jobID, v.jobID)
    {
      LessTrichotomy(s[0].jobID, s[0].jobID);
      NotLessTransitive(v.jobID, s[0].jobID, s[i].jobID);
    }
  }

  lemma MembersAbove(a: ComputeVerification, v: ComputeVerification, s: seq<ComputeVerification>,
                     t: seq<ComputeVerification>)
    requires Less(a.jobID, v.jobID) && multiset(t) == multiset{v} + multiset(s)
    requires forall i :: 0 <= i < |s| ==> !Less(s[i].jobID, a.jobID)
    ensures forall j :: 0 <= j < |t| ==> !Less(t[j].jobID, a.jobID)
  {
    LessTrichotomy(a.jobID, v.jobID);
    forall j | 0 <= j < |t|
      ensures !Less(t[j].jobID, a.jobID)
    {
      assert t[j] in multiset(t);
      assert t[j] == v || t[j] in multiset(s);
    }
  }

  function Insert(v: ComputeVerification, s: seq<ComputeVerification>): (r: seq<ComputeVerification>)
    requires SortedByJob(s)
    ensures multiset(r) == multiset{v} + multiset(s)
    ensures SortedByJob(r)
  {
    if s == [] then [v]
    else if !Less(s[0].jobID, v.jobID) then
      BelowAll(v, s);
      [v] + s
    else
      var t := Insert(v, s[1..]);
      assert s == [s[0]] + s[1..];
      MembersAbove(s[0], v, s[1..], t);
      [s[0]] + t
  }

  /** A sort: one way of meeting the library's contract. */
  function Sort(xs: seq<ComputeVerification>): (r: seq<ComputeVerification>)
    ensures SortOf(r, xs)
  {
    if xs == [] then []
    else
      assert xs == [xs[0]] + xs[1..];
      Insert(xs[0], Sort(xs[1..]))
  }

  /** Entries with one JobID are the same entry; distinct JobIDs imply it. */
  predicate JobDetermines(xs: seq<ComputeVerification>)
  {
    forall i, j :: 0 <= i < |xs| && 0 <= j < |xs| && xs[i].jobID == xs[j].jobID ==> xs[i] == xs[j]
  }

  predicate DistinctJobs(xs: seq<ComputeVerification>)
  {
    forall i, j :: 0 <= i < j < |xs| ==> xs[i].jobID != xs[j].jobID
  }

  lemma JobDeterminesPermutes(xs: seq<ComputeVerification>, s: seq<ComputeVerification>)
    requires JobDetermines(xs) && multiset(s) == multiset(xs)
    ensures JobDetermines(s)
  {
    forall i, j | 0 <= i < |s| && 0 <= j < |s| && s[i].jobID == s[j].jobID
      ensures s[i] == s[j]
    {
      assert s[i] in multiset(xs) && s[j] in multiset(xs);
      var a :| 0 <= a < |xs| && xs[a] == s[i];
      var b :| 0 <= b < |xs| && xs[b] == s[j];
    }
  }

  lemma LeastFirst(s: seq<ComputeVerification>, v: ComputeVerification)
    requires SortedByJob(s) && v in multiset(s)
    ensures !Less(v.jobID, s[0].jobID)
  {
    var i :| 0 <= i < |s| && s[i] == v;
    LessTrichotomy(s[0].jobID, s[0].jobID);
  }

  lemma TailMultiset(s: seq<ComputeVerification>)
    requires s != []
    ensures multiset(s[1..]) == multiset(s) - multiset{s[0]}
  {
    assert s == [s[0]] + s[1..];
  }

  lemma SameHead(s: seq<ComputeVerification>, t: seq<ComputeVerification>)
    requires s != [] && t != []
    requires SortedByJob(s) && SortedByJob(t) && multiset(s) == multiset(t) && JobDetermines(s)
    ensures s[0] == t[0]
  {
    assert t[0] in multiset(t) && s[0] in multiset(s);
    LeastFirst(s, t[0]);
    LeastFirst(t, s[0]);
    LessTrichotomy(s[0].jobID, t[0].jobID);
    var i :| 0 <= i < |s| && s[i] == t[0];
  }

  lemma {:induction false} SortedUnique(s: seq<ComputeVerification>, t: seq<ComputeVerification>)
    requires SortedByJob(s) && SortedByJob(t) && multiset(s) == multiset(t) && JobDetermines(s)
    ensures s == t
  {
    assert |s| == |multiset(s)| == |multiset(t)| == |t|;
    if s != [] {
      SameHead(s, t);
      TailMultiset(s);
      TailMultiset(t);
      SortedUnique(s[1..], t[1..]);
      assert s == [s[0]] + s[1..] && t == [t[0]] + t[1..];
    }
  }

  lemma SameJobsSorted(s: seq<ComputeVerification>, t: seq<ComputeVerification>)
    requires SortedByJob(s) && |s| == |t| && forall k :: 0 <= k < |s| ==> t[k].jobID == s[k].jobID
    ensures SortedByJob(t)
  {
  }

  lemma SwapPermutes(s: seq<ComputeVerification>, i: nat, j: nat)
    requires i < |s| && j < |s|
    ensures multiset(s[i := s[j]][j := s[i]]) == multiset(s)
  {
    var u := s[i := s[j]];
    assert multiset(u) == multiset(s) - multiset{s[i]} + multiset{s[j]};
    assert multiset(u[j := s[i]]) == multiset(u) - multiset{u[j]} + multiset{s[i]};
  }

  lemma TwoSorts(xs: seq<ComputeVerification>) returns (s: seq<ComputeVerification>, t: seq<ComputeVerification>)
    requires !JobDetermines(xs)
    ensures SortOf(s, xs) && SortOf(t, xs) && s != t
  {
    s := Sort(xs);
    assert !JobDetermines(s) by {
      if JobDetermines(s) {
        JobDeterminesPermutes(s, xs);
      }
    }
    var i, j :| 0 <= i < |s| && 0 <= j < |s| && s[i].jobID == s[j].jobID && s[i] != s[j];
    t := s[i := s[j]][j := s[i]];
    SwapPermutes(s, i, j);
    SameJobsSorted(s, t);
    assert t[i] != s[i];
  }

  /** Sorting xs has one possible outcome exactly when entries sharing a JobID are equal. */
  lemma {:induction false} CanonicalIffJobDetermines(xs: seq<ComputeVerification>)
    ensures JobDetermines(xs) <==> (forall s, t :: SortOf(s, xs) && SortOf(t, xs) ==> s == t)
  {
    if JobDetermines(xs) {
      forall s, t | SortOf(s, xs) && SortOf(t, xs)
        ensures s == t
      {
        JobDeterminesPermutes(xs, s);
        SortedUnique(s, t);
      }
    } else {
      var s, t := TwoSorts(xs);
    }
  }

  /** Two validators holding the same verifications with distinct JobIDs in any two orders sort
      them, with any sort, into one sequence. */
  lemma {:induction false} CanonicalOrder(xs: seq<ComputeVerification>, ys: seq<ComputeVerification>,
                                          s: seq<ComputeVerification>, t: seq<ComputeVerification>)
    requires DistinctJobs(xs) && multiset(xs) == multiset(ys) && SortOf(s, xs) && SortOf(t, ys)
    ensures s == t
  {
    JobDeterminesPermutes(xs, s);
    SortedUnique(s, t);
  }

  lemma TwiceIn(s: seq<ComputeVerification>, i: nat, j: nat)
    requires i < j < |s|
    ensures multiset{s[i], s[j]} <= multiset(s)
  {
    assert s == s[..i] + [s[i]] + s[i + 1..j] + [s[j]] + s[j + 1..];
  }

  lemma {:induction false} JobOnce(xs: seq<ComputeVerification>, v: ComputeVerification, w: ComputeVerification)
    requires DistinctJobs(xs) && multiset{v, w} <= multiset(xs)
    ensures v.jobID != w.jobID
  {
    var n := |xs| - 1;
    assert xs == xs[..n] + [xs[n]];
    if multiset{v, w} <= multiset(xs[..n]) {
      JobOnce(xs[..n], v, w);
    } else {
      var o := if v == xs[n] then w else v;
      assert multiset(xs[..n])[o] > 0;
      assert o in xs[..n];
    }
  }

  lemma DistinctPermutes(xs: seq<ComputeVerification>, s: seq<ComputeVerification>)
    requires DistinctJobs(xs) && multiset(s) == multiset(xs)
    ensures DistinctJobs(s)
  {
    forall i, j | 0 <= i < j < |s|
      ensures s[i].jobID != s[j].jobID
    {
      if s[i].jobID == s[j].jobID {
        TwiceIn(s, i, j);
        JobOnce(xs, s[i], s[j]);
      }
    }
  }

  /** A sorted list with distinct JobIDs has them in strictly ascending lexicographic order. */
  lemma {:induction false} SortedAscends(xs: seq<ComputeVerification>, s: seq<ComputeVerification>, i: nat, j: nat)
    requires DistinctJobs(xs) && SortOf(s, xs) && i < j < |s|
    ensures Precedes(s[i].jobID, s[j].jobID)
  {
    DistinctPermutes(xs, s);
    LessTrichotomy(s[i].jobID, s[j].jobID);
    LessIsLexicographic(s[i].jobID, s[j].jobID);
  }
}
