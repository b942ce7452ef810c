/**
 app/vote_extension_cache.go: verified vote extensions by height and validator, bounded to the
 newest heights. The cache is proved to agree, on every height it keeps, with the unbounded log of
 all Store calls.
 */
module Cache {
  import opened Encoding
  import opened VoteTypes

  type Heights = map<int64, map<bytes, bytes>>

  datatype Call = Call(height: int64, addr: bytes, ext: bytes)

  /** Store ignores a non-positive height and an empty address. */
  predicate Accepted(c: Call)
  {
    c.height > 0 && c.addr != []
  }

  /** chainID ":" hex(addr). */
  function CacheKey(chainID: bytes, addr: bytes): bytes
  {
    chainID + (Ascii(":") + Hex(addr))
  }

  lemma {:induction false} HexHasNoColon(b: bytes, i: nat)
    requires i < 2 * |b|
    ensures Hex(b)[i] != Ascii(":")[0]
  {
    if i >= 2 {
      HexHasNoColon(b[1..], i - 2);
    }
  }

  lemma NoLongerChain(c: bytes, d: bytes, a: bytes, b: bytes)
    requires |c| < |d|
    ensures CacheKey(c, a) != CacheKey(d, b)
  {
    var k := CacheKey(c, a);
    if k == CacheKey(d, b) {
      var i := |d| - |c| - 1;
      assert CacheKey(d, b)[|d|] == Ascii(":")[0];
      assert k[|d|] == (Ascii(":") + Hex(a))[i + 1] == Hex(a)[i];
      HexHasNoColon(a, i);
    }
  }

  /** A key names one chain and one validator. */
  lemma {:induction false} CacheKeyInjective(c: bytes, a: bytes, d: bytes, b: bytes)
    requires CacheKey(c, a) == CacheKey(d, b)
    ensures c == d && a == b
  {
    if |c| < |d| {
      NoLongerChain(c, d, a, b);
    } else if |d| < |c| {
      NoLongerChain(d, c, b, a);
    } else {
      SameWidth(c, d, Ascii(":") + Hex(a), Ascii(":") + Hex(b));
      SameWidth(Ascii(":"), Ascii(":"), Hex(a), Hex(b));
      HexInjective(a, b);
    }
  }

  // ---------------------------------------------------------------- one step

  function Insert(m: Heights, chainID: bytes, c: Call): Heights
  {
    m[c.height := (if c.height in m then m[c.height] else map[])[CacheKey(chainID, c.addr) := c.ext]]
  }

  /** keep is a set of n of the given heights, all newer than the others. */
  predicate Newest(all: set<int64>, n: nat, keep: set<int64>)
  {
    && keep <= all
    && |keep| == (if |all| < n then |all| else n)
    && forall g, h :: g in all && g !in keep && h in keep ==> g < h
  }

  /** What prune leaves: the newest heights, untouched. */
  predicate Pruned(m: Heights, max: nat, r: Heights)
  {
    && Newest(m.Keys, max, r.Keys)
    && forall h :: h in r ==> h in m && r[h] == m[h]
  }

  /** One call of Store. */
  predicate StoreStep(chainID: bytes, max: nat, m: Heights, c: Call, r: Heights)
  {
    if Accepted(c) then Pruned(Insert(m, chainID, c), max, r) else r == m
  }

  // ---------------------------------------------------------------- the unbounded log

  /** Every height accepted so far. */
  function Logged(calls: seq<Call>): set<int64>
  {
    if calls == [] then {}
    else
      var c := calls[|calls| - 1];
      Logged(calls[..|calls| - 1]) + if Accepted(c) then {c.height} else {}
  }

  /** The extension stored last for a height and validator, in the whole history. */
  function Last(calls: seq<Call>, height: int64, addr: bytes): Option<bytes>
  {
    if calls == [] then None
    else
      var c := calls[|calls| - 1];
      if Accepted(c) && c.height == height && c.addr == addr then Some(c.ext)
      else Last(calls[..|calls| - 1], height, addr)
  }

  function Lookup(m: map<bytes, bytes>, key: bytes): Option<bytes>
  {
    if key in m then Some(m[key]) else None
  }

  /** One height's entries are the last extension each validator stored for it. */
  ghost predicate HeightAgrees(chainID: bytes, calls: seq<Call>, height: int64, m: map<bytes, bytes>)
  {
    && (forall addr :: Lookup(m, CacheKey(chainID, addr)) == Last(calls, height, addr))
    && (forall key :: key in m ==> exists addr :: key == CacheKey(chainID, addr))
  }

  /** The cache holds exactly the newest heights of the log, each as the log has it. */
  ghost predicate Refines(chainID: bytes, max: nat, calls: seq<Call>, m: Heights)
  {
    && Newest(Logged(calls), max, m.Keys)
    && forall h :: h in m ==> HeightAgrees(chainID, calls, h, m[h])
  }

  /** The states the cache goes through, from empty, as the calls are made. */
  ghost predicate Run(chainID: bytes, max: nat, calls: seq<Call>, states: seq<Heights>)
  {
    && |states| == |calls| + 1 && states[0] == map[]
    && forall i :: 0 <= i < |calls| ==> StoreStep(chainID, max, states[i], calls[i], states[i + 1])
  }

  // ---------------------------------------------------------------- refinement

  lemma LoggedSnoc(calls: seq<Call>, c: Call)
    ensures Logged(calls + [c]) == Logged(calls) + if Accepted(c) then {c.height} else {}
  {
    assert (calls + [c])[..|calls|] == calls;
  }

  lemma LastSnoc(calls: seq<Call>, c: Call, height: int64, addr: bytes)
    ensures Last(calls + [c], height, addr) ==
            if Accepted(c) && c.height == height && c.addr == addr then Some(c.ext) else Last(calls, height, addr)
  {
    assert (calls + [c])[..|calls|] == calls;
  }

  lemma {:induction false} NotLogged(calls: seq<Call>, height: int64, addr: bytes)
    requires height !in Logged(calls)
    ensures Last(calls, height, addr) == None
  {
    if calls != [] {
      NotLogged(calls[..|calls| - 1], height, addr);
    }
  }

  lemma OtherHeight(chainID: bytes, calls: seq<Call>, c: Call, height: int64, m: map<bytes, bytes>)
    requires HeightAgrees(chainID, calls, height, m) && !(Accepted(c) && c.height == height)
    ensures HeightAgrees(chainID, calls + [c], height, m)
  {
    forall addr
      ensures Last(calls + [c], height, addr) == Last(calls, height, addr)
    {
      LastSnoc(calls, c, height, addr);
    }
  }

  lemma StoredHeight(chainID: bytes, calls: seq<Call>, c: Call, m: map<bytes, bytes>)
    requires HeightAgrees(chainID, calls, c.height, m) && Accepted(c)
    ensures HeightAgrees(chainID, calls + [c], c.height, m[CacheKey(chainID, c.addr) := c.ext])
  {
    var r := m[CacheKey(chainID, c.addr) := c.ext];
    forall addr
      ensures Lookup(r, CacheKey(chainID, addr)) == Last(calls + [c], c.height, addr)
    {
      LastSnoc(calls, c, c.height, addr);
      if CacheKey(chainID, addr) == CacheKey(chainID, c.addr) {
        CacheKeyInjective(chainID, addr, chainID, c.addr);
      }
    }
  }

  lemma EmptyHeight(chainID: bytes, calls: seq<Call>, height: int64)
    requires height !in Logged(calls)
    ensures HeightAgrees(chainID, calls, height, map[])
  {
    forall addr
      ensures Last(calls, height, addr) == None
    {
      NotLogged(calls, height, addr);
    }
  }

  lemma SubsetSmaller(a: set<int64>, b: set<int64>, x: int64)
    requires a <= b && x in b && x !in a
    ensures |a| < |b|
  {
    assert |b - a| > 0 by { assert x in b - a; }
    assert a + (b - a) == b;
    assert |a| + |b - a| == |b|;
  }

  lemma SubsetSameSize(a: set<int64>, b: set<int64>)
    requires a <= b && |a| >= |b|
    ensures a == b
  {
    if x :| x in b && x !in a {
      SubsetSmaller(a, b, x);
    }
  }

  /** With h older than every kept height, it is h that goes. */
  lemma DroppedIsOldest(keep: set<int64>, h: int64, r: set<int64>)
    requires h !in keep && (forall k :: k in keep ==> h < k)
    requires Newest(keep + {h}, |keep|, r)
    ensures r == keep
  {
    assert |keep + {h}| == |keep| + 1;
    assert !(keep + {h} <= r) by {
      if keep + {h} <= r {
        SubsetSameSize(keep + {h}, r);
      }
    }
    if h !in r {
      SubsetSameSize(r, keep);
    }
  }

  lemma OlderThanKept(all: set<int64>, n: nat, keep: set<int64>, h: int64, r: set<int64>, g: int64, k: int64)
    requires Newest(all, n, keep) && Newest(keep + {h}, n, r) && h !in all && |all| >= n
    requires g in all && g !in keep && k in r
    ensures g < k
  {
    if k == h {
      assert |keep + {h}| == n + 1;
      assert exists x :: x in keep && x !in r by {
        if keep <= r {
          assert keep + {h} <= r;
          SubsetSameSize(keep + {h}, r);
        }
      }
      var x :| x in keep && x !in r;
      assert x in keep + {h} && x < h && g < x;
    }
  }

  /** Removing one height from the newest of a larger set. */
  lemma NewestGrows(all: set<int64>, n: nat, keep: set<int64>, h: int64, r: set<int64>)
    requires Newest(all, n, keep) && Newest(keep + {h}, n, r)
    ensures Newest(all + {h}, n, r)
    ensures h in all && h !in keep ==> h !in r
  {
    var big := keep + {h};
    if h in keep {
      assert big == keep && all + {h} == all;
      SubsetSameSize(r, keep);
    } else {
      assert |big| == |keep| + 1;
      if h in all {
        assert all + {h} == all;
        SubsetSmaller(keep, all, h);
        assert |keep| == n;
        DroppedIsOldest(keep, h, r);
      } else {
        assert |all + {h}| == |all| + 1;
        if |all| < n {
          SubsetSameSize(keep, all);
        } else {
          forall g, k | g in all + {h} && g !in r && k in r
            ensures g < k
          {
            if g !in big {
              OlderThanKept(all, n, keep, h, r, g, k);
            }
          }
        }
      }
    }
  }

  /** A kept height agrees with the log after the call. */
  lemma KeptHeight(chainID: bytes, calls: seq<Call>, c: Call, m: Heights, h: int64)
    requires Accepted(c) && (h in m ==> HeightAgrees(chainID, calls, h, m[h]))
    requires h in Insert(m, chainID, c) && (h !in m ==> h !in Logged(calls))
    ensures HeightAgrees(chainID, calls + [c], h, Insert(m, chainID, c)[h])
  {
    if h != c.height {
      OtherHeight(chainID, calls, c, h, m[h]);
    } else {
      if h !in m {
        EmptyHeight(chainID, calls, h);
      }
      StoredHeight(chainID, calls, c, if h in m then m[h] else map[]);
    }
  }

  lemma InsertKeys(m: Heights, chainID: bytes, c: Call)
    ensures Insert(m, chainID, c).Keys == m.Keys + {c.height}
  {
  }

  lemma AcceptedRefines(chainID: bytes, max: nat, calls: seq<Call>, c: Call, m: Heights, r: Heights)
    requires Refines(chainID, max, calls, m) && Accepted(c) && Pruned(Insert(m, chainID, c), max, r)
    ensures Refines(chainID, max, calls + [c], r)
  {
    LoggedSnoc(calls, c);
    InsertKeys(m, chainID, c);
    NewestGrows(Logged(calls), max, m.Keys, c.height, r.Keys);
    forall h | h in r
      ensures HeightAgrees(chainID, calls + [c], h, r[h])
    {
      KeptHeight(chainID, calls, c, m, h);
    }
  }

  /** One Store keeps the refinement. */
  lemma {:induction false} StoreRefines(chainID: bytes, max: nat, calls: seq<Call>, c: Call, m: Heights, r: Heights)
    requires Refines(chainID, max, calls, m) && StoreStep(chainID, max, m, c, r)
    ensures Refines(chainID, max, calls + [c], r)
  {
    if Accepted(c) {
      AcceptedRefines(chainID, max, calls, c, m, r);
    } else {
      LoggedSnoc(calls, c);
      forall h | h in r
        ensures HeightAgrees(chainID, calls + [c], h, r[h])
      {
        OtherHeight(chainID, calls, c, h, m[h]);
      }
    }
  }

  /** After any sequence of Store calls the heights held are exactly the newest accepted ones, and
      each validator's entry is the last extension stored for it in the full history. */
  lemma {:induction false} CacheRefinesLog(chainID: bytes, max: nat, calls: seq<Call>, states: seq<Heights>)
    requires Run(chainID, max, calls, states)
    ensures Refines(chainID, max, calls, states[|calls|])
  {
    if calls != [] {
      var n := |calls| - 1;
      CacheRefinesLog(chainID, max, calls[..n], states[..n + 1]);
      StoreRefines(chainID, max, calls[..n], calls[n], states[n], states[n + 1]);
      assert calls == calls[..n] + [calls[n]];
    }
  }

  /** The newest heights are one set, so "exactly the newest" leaves no choice. */
  lemma {:induction false} NewestUnique(all: set<int64>, n: nat, a: set<int64>, b: set<int64>)
    requires Newest(all, n, a) && Newest(all, n, b)
    ensures a == b
  {
    if a <= b {
      SubsetSameSize(a, b);
    } else {
      var x :| x in a && x !in b;
      forall y | y in b
        ensures y in a
      {
      }
      SubsetSameSize(b, a);
    }
  }

  // ---------------------------------------------------------------- the cache object

  /** The vote extension attached to a commit vote. */
  datatype ExtendedVote = ExtendedVote(vote: CommitVote, ext: bytes)

  /** The cached extension for a vote, if there is one. */
  function CachedFor(m: Heights, chainID: bytes, height: int64, vote: CommitVote): Option<bytes>
  {
    if height in m && vote.address != [] then Lookup(m[height], CacheKey(chainID, vote.address)) else None
  }

  function Extended(m: Heights, chainID: bytes, height: int64, votes: seq<CommitVote>): (r: seq<ExtendedVote>)
    ensures |r| == |votes|
    ensures forall i :: 0 <= i < |votes| ==> r[i].vote == votes[i]
  {
    seq(|votes|, i requires 0 <= i < |votes| =>
      ExtendedVote(votes[i], match CachedFor(m, chainID, height, votes[i]) case Some(e) => e case None => []))
  }

  function FoundCount(m: Heights, chainID: bytes, height: int64, votes: seq<CommitVote>): nat
  {
    if votes == [] then 0
    else
      FoundCount(m, chainID, height, votes[..|votes| - 1]) +
      if CachedFor(m, chainID, height, votes[|votes| - 1]).Some? then 1 else 0
  }

  /** heights[..] lists the keys, oldest first. */
  predicate Ascending(heights: seq<int64>)
  {
    forall i, j :: 0 <= i < j < |heights| ==> heights[i] < heights[j]
  }

  function Members(heights: seq<int64>): set<int64>
  {
    set h | h in heights
  }

  lemma DropHead(heights: seq<int64>)
    requires heights != [] && Ascending(heights)
    ensures Members(heights) - {heights[0]} == Members(heights[1..])
  {
    assert heights == [heights[0]] + heights[1..];
  }

  lemma {:induction false} Cardinality(heights: seq<int64>)
    requires Ascending(heights)
    ensures |Members(heights)| == |heights|
  {
    if heights != [] {
      DropHead(heights);
      Cardinality(heights[1..]);
      assert Members(heights) == Members(heights[1..]) + {heights[0]};
    }
  }

  lemma KeptAreNewest(all: seq<int64>, i: nat, keys: set<int64>, kept: set<int64>)
    requires i <= |all| && Ascending(all) && keys == Members(all) && kept == Members(all[i..])
    ensures Newest(keys, |all| - i, kept)
  {
    Cardinality(all);
    Cardinality(all[i..]);
    assert all == all[..i] + all[i..];
  }

  lemma AscendingCons(k: int64, heights: seq<int64>)
    requires Ascending(heights) && forall h :: h in heights ==> k < h
    ensures Ascending([k] + heights)
  {
    var r := [k] + heights;
    forall i, j | 0 <= i < j < |r|
      ensures r[i] < r[j]
    {
      assert r[j] == heights[j - 1] && heights[j - 1] in heights;
    }
  }

  function InsertHeight(heights: seq<int64>, k: int64): (r: seq<int64>)
    requires Ascending(heights) && k !in heights
    ensures Ascending(r)
    ensures forall h :: h in r <==> h in heights || h == k
  {
    if heights == [] then [k]
    else if k < heights[0] then
      assert forall h :: h in heights ==> heights[0] <= h;
      AscendingCons(k, heights);
      [k] + heights
    else
      assert heights == [heights[0]] + heights[1..];
      var t := InsertHeight(heights[1..], k);
      AscendingCons(heights[0], t);
      [heights[0]] + t
  }

  /** The keys of a map in ascending order, collected in whatever order the map gives them. */
  method SortedKeys(m: Heights) returns (heights: seq<int64>)
    ensures Ascending(heights) && m.Keys == Members(heights)
    ensures |heights| == |m|
  {
    heights := [];
    var left := m.Keys;
    while left != {}
      invariant left <= m.Keys && Ascending(heights)
      invariant forall h :: h in heights <==> h in m.Keys && h !in left
      decreases left
    {
      var k :| k in left;
      left := left - {k};
      heights := InsertHeight(heights, k);
    }
    assert m.Keys == Members(heights);
    Cardinality(heights);
  }

  class VoteExtensionCache {
    var byHeight: Heights
    const maxHeights: nat
    const chainID: bytes

    /** NewVoteExtensionCache: a non-positive bound becomes 4. */
    constructor (max: int, chain: bytes)
      ensures byHeight == map[] && chainID == chain
      ensures maxHeights == if max <= 0 then 4 else max
    {
      byHeight := map[];
      maxHeights := if max <= 0 then 4 else max;
      chainID := chain;
    }

    method Store(height: int64, addr: bytes, ext: bytes)
      modifies this
      ensures StoreStep(chainID, maxHeights, old(byHeight), Call(height, addr, ext), byHeight)
    {
      if height <= 0 || |addr| == 0 {
        return;
      }
      var key := CacheKey(chainID, addr);
      if height !in byHeight {
        byHeight := byHeight[height := map[]];
      }
      byHeight := byHeight[height := byHeight[height][key := ext]];
      assert byHeight == Insert(old(byHeight), chainID, Call(height, addr, ext));
      Prune();
    }

    /** Delete the oldest heights while there are more than maxHeights. */
    method Prune()
      modifies this
      ensures Pruned(old(byHeight), maxHeights, byHeight)
    {
      if |byHeight| <= maxHeights {
        return;
      }
      var heights := SortedKeys(byHeight);
      ghost var i := 0;
      ghost var all := heights;
      while |heights| > maxHeights
        invariant 0 <= i && i + |heights| == |all| && heights == all[i..] && |heights| >= maxHeights
        invariant byHeight.Keys == Members(heights)
        invariant forall h :: h in byHeight ==> h in old(byHeight) && byHeight[h] == old(byHeight)[h]
        decreases |heights|
      {
        var oldest := heights[0];
        DropHead(heights);
        byHeight := byHeight - {oldest};
        heights := heights[1..];
        i := i + 1;
      }
      KeptAreNewest(all, i, old(byHeight).Keys, byHeight.Keys);
    }

    /** The cached extension of one vote; a miss is nil. */
    method Find(height: int64, vote: CommitVote) returns (ext: bytes, hit: bool)
      ensures hit <==> CachedFor(byHeight, chainID, height, vote).Some?
      ensures ext == if hit then CachedFor(byHeight, chainID, height, vote).value else []
    {
      ext, hit := [], false;
      if height in byHeight && |vote.address| > 0 {
        var key := CacheKey(chainID, vote.address);
        if key in byHeight[height] {
          ext, hit := byHeight[height][key], true;
        }
      }
    }

    /** BuildExtendedVotes on a cache that is not nil. */
    method Attach(height: int64, votes: seq<CommitVote>) returns (extended: seq<ExtendedVote>, found: nat)
      ensures extended == Extended(byHeight, chainID, height, votes)
      ensures found == FoundCount(byHeight, chainID, height, votes)
    {
      extended, found := [], 0;
      ghost var target := Extended(byHeight, chainID, height, votes);
      for i := 0 to |votes|
        invariant extended == target[..i]
        invariant found == FoundCount(byHeight, chainID, height, votes[..i])
      {
        assert votes[..i + 1][..i] == votes[..i];
        var ext, hit := Find(height, votes[i]);
        if hit {
          found := found + 1;
        }
        extended := extended + [ExtendedVote(votes[i], ext)];
      }
      assert votes[..|votes|] == votes && target[..|votes|] == target;
    }
  }

  /** BuildExtendedVotes, on a cache that may be nil. */
  method BuildExtendedVotes(c: VoteExtensionCache?, height: int64, votes: seq<CommitVote>)
    returns (extended: seq<ExtendedVote>, found: nat)
    ensures c == null ==> extended == Extended(map[], [], height, votes) && found == 0
    ensures c != null ==> extended == Extended(c.byHeight, c.chainID, height, votes)
    ensures c != null ==> found == FoundCount(c.byHeight, c.chainID, height, votes)
  {
    if c == null {
      extended, found := [], 0;
      ghost var target := Extended(map[], [], height, votes);
      for i := 0 to |votes|
        invariant extended == target[..i]
      {
        extended := extended + [ExtendedVote(votes[i], [])];
      }
      assert target[..|votes|] == target;
      return;
    }
    extended, found := c.Attach(height, votes);
  }

  /** In a run, what is attached to a vote is the last extension its validator stored for the
      height; heights that are not kept attach nothing. */
  lemma {:induction false} AttachesLast(chainID: bytes, max: nat, calls: seq<Call>, states: seq<Heights>, height: int64,
                                        votes: seq<CommitVote>, i: nat)
    requires Run(chainID, max, calls, states) && i < |votes|
    ensures var m := states[|calls|];
      CachedFor(m, chainID, height, votes[i]) ==
        if height in m && votes[i].address != [] then Last(calls, height, votes[i].address) else None
  {
    CacheRefinesLog(chainID, max, calls, states);
  }

  lemma {:induction false} EmptyFindsNothing(chainID: bytes, height: int64, votes: seq<CommitVote>)
    ensures FoundCount(map[], chainID, height, votes) == 0
  {
    if votes != [] {
      EmptyFindsNothing(chainID, height, votes[..|votes| - 1]);
    }
  }

  // ---------------------------------------------------------------- what a caller sees

  function NewerThan(all: set<int64>, h: int64): set<int64> { set g | g in all && g > h }

  /** A height is kept exactly when fewer than max logged heights are newer. */
  lemma {:induction false} KeptIffFewNewer(all: set<int64>, max: nat, keep: set<int64>, h: int64)
    requires Newest(all, max, keep) && h in all
    ensures h in keep <==> |NewerThan(all, h)| < max
  {
    var newer := NewerThan(all, h);
    if h in keep {
      assert newer <= keep;
      SubsetSmaller(newer, keep, h);
    } else {
      assert keep <= newer;
      SubsetSmaller(keep, all, h);
      assert newer == keep + (newer - keep);
    }
  }

  /** After any calls the cache has entries for exactly the logged heights with fewer than max newer ones. */
  lemma {:induction false} HeightsKept(chainID: bytes, max: nat, calls: seq<Call>, states: seq<Heights>, h: int64)
    requires Run(chainID, max, calls, states)
    ensures h in states[|calls|] <==> h in Logged(calls) && |NewerThan(Logged(calls), h)| < max
  {
    CacheRefinesLog(chainID, max, calls, states);
    if h in Logged(calls) {
      KeptIffFewNewer(Logged(calls), max, states[|calls|].Keys, h);
    }
  }

  lemma {:induction false} LoggedIff(calls: seq<Call>, h: int64)
    ensures h in Logged(calls) <==>
      exists i :: 0 <= i < |calls| && calls[i].height == h && calls[i].height > 0 && calls[i].addr != []
  {
    if calls != [] {
      var n := |calls| - 1;
      LoggedIff(calls[..n], h);
      if h in Logged(calls[..n]) {
        var i :| 0 <= i < n && calls[..n][i].height == h && calls[..n][i].height > 0 && calls[..n][i].addr != [];
        assert calls[i].height == h;
      }
    }
  }

  /** A call with a positive height and an address is seen at once, whatever was stored before, and changes no
      other entry of a height that is kept; any other call changes nothing. */
  lemma {:induction false} StoreThenFind(chainID: bytes, max: nat, m: Heights, c: Call, r: Heights)
    requires StoreStep(chainID, max, m, c, r)
    ensures c.height <= 0 || c.addr == [] ==> r == m
    ensures c.height > 0 && c.addr != [] && c.height in r ==>
      CacheKey(chainID, c.addr) in r[c.height] && r[c.height][CacheKey(chainID, c.addr)] == c.ext
    ensures forall h, addr :: h in r && (h != c.height || addr != c.addr) ==>
      Lookup(r[h], CacheKey(chainID, addr)) == (if h in m then Lookup(m[h], CacheKey(chainID, addr)) else None)
  {
    forall h, addr | h in r && (h != c.height || addr != c.addr)
      ensures Lookup(r[h], CacheKey(chainID, addr)) == (if h in m then Lookup(m[h], CacheKey(chainID, addr)) else None)
    {
      if CacheKey(chainID, addr) == CacheKey(chainID, c.addr) {
        CacheKeyInjective(chainID, addr, chainID, c.addr);
      }
    }
  }

  /** Each vote gets what the cache holds for its height and address, and the count is positive exactly when
      there is something for one of them. */
  lemma {:induction false} ExtendedMeans(m: Heights, chainID: bytes, height: int64, votes: seq<CommitVote>)
    ensures forall i :: 0 <= i < |votes| ==>
      Extended(m, chainID, height, votes)[i].ext ==
        if votes[i].address != [] && height in m && CacheKey(chainID, votes[i].address) in m[height]
        then m[height][CacheKey(chainID, votes[i].address)] else []
    ensures FoundCount(m, chainID, height, votes) > 0 <==>
      exists i :: 0 <= i < |votes| && votes[i].address != [] && height in m
                  && CacheKey(chainID, votes[i].address) in m[height]
    ensures FoundCount(m, chainID, height, votes) <= |votes|
  {
    if votes != [] {
      var n := |votes| - 1;
      ExtendedMeans(m, chainID, height, votes[..n]);
      if exists i :: 0 <= i < |votes| && votes[i].address != [] && height in m
                     && CacheKey(chainID, votes[i].address) in m[height] {
        var i :| 0 <= i < |votes| && votes[i].address != [] && height in m
                 && CacheKey(chainID, votes[i].address) in m[height];
        assert i == n || votes[..n][i] == votes[i];
      }
    }
  }
}
