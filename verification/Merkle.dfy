/**
 The Merkle commitment of app/vote_extension_signing.go. The code pairs hashes level by level
 and promotes an odd one; section 2.1 of RFC 6962 splits the list at the largest power of two
 below its length. They are proved equal for every hash function, and the root is proved to
 bind the list it commits to.
 */
module Merkle {
  import opened Encoding
  import opened VoteTypes

  type Hash = bytes -> Digest

  /** What computeVerificationHash writes after the 0x00 leaf prefix. */
  function LeafData(v: ComputeVerification): bytes
  {
    Ascii("verification:") + (v.jobID + (v.modelHash + (v.inputHash + (v.outputHash + [if v.success then 1 else 0]))))
  }

  function LeafInput(d: bytes): bytes { [0] + d }
  function NodeInput(l: Digest, r: Digest): bytes { [1] + (l + r) }

  function ComputeVerificationHash(h: Hash, v: ComputeVerification): Digest
  {
    h(LeafInput(LeafData(v)))
  }

  // ---------------------------------------------------------------- section 2.1 of RFC 6962

  predicate IsPow2(k: nat)
  {
    k == 1 || (k > 1 && k % 2 == 0 && IsPow2(k / 2))
  }

  /** The largest power of two smaller than n. */
  function Split(n: nat): (k: nat)
    requires n > 1
    ensures IsPow2(k) && k < n <= 2 * k
  {
    if n == 2 then 1 else 2 * Split((n + 1) / 2)
  }

  /** Split is the only power of two with k < n <= 2k. */
  lemma {:induction false} SplitUnique(n: nat, k: nat)
    requires n > 1 && IsPow2(k) && k < n <= 2 * k
    ensures k == Split(n)
  {
    if k > 1 {
      SplitUnique((n + 1) / 2, k / 2);
    }
  }

  /** MTH(D) of RFC 6962, for a non-empty list of leaf data. */
  function TreeHash(h: Hash, ds: seq<bytes>): Digest
    requires ds != []
    decreases |ds|
  {
    if |ds| == 1 then h(LeafInput(ds[0]))
    else
      var k := Split(|ds|);
      h(NodeInput(TreeHash(h, ds[..k]), TreeHash(h, ds[k..])))
  }

  // ---------------------------------------------------------------- the level-by-level loop

  /** The same tree over hashes that already stand for subtrees. */
  function Fold(h: Hash, level: seq<Digest>): Digest
    requires level != []
    decreases |level|
  {
    if |level| == 1 then level[0]
    else
      var k := Split(|level|);
      h(NodeInput(Fold(h, level[..k]), Fold(h, level[k..])))
  }

  /** The next level: pairs hashed, an odd last hash promoted. */
  function PairUp(h: Hash, level: seq<Digest>): (r: seq<Digest>)
    ensures |r| == (|level| + 1) / 2
  {
    if |level| == 0 then []
    else if |level| == 1 then level
    else [h(NodeInput(level[0], level[1]))] + PairUp(h, level[2..])
  }

  lemma {:induction false} PairUpConcat(h: Hash, a: seq<Digest>, b: seq<Digest>)
    requires |a| % 2 == 0
    ensures PairUp(h, a + b) == PairUp(h, a) + PairUp(h, b)
  {
    if a == [] {
      assert a + b == b;
    } else {
      PairUpConcat(h, a[2..], b);
      assert (a + b)[2..] == a[2..] + b;
      ConcatAssoc([h(NodeInput(a[0], a[1]))], PairUp(h, a[2..]), PairUp(h, b));
    }
  }

  /** One pairing round leaves the root of the recursive tree unchanged. */
  lemma {:induction false} PairUpKeepsRoot(h: Hash, level: seq<Digest>)
    requires level != []
    ensures Fold(h, PairUp(h, level)) == Fold(h, level)
    decreases |level|
  {
    var n := |level|;
    if n == 2 {
      assert level[..1] == [level[0]] && level[1..] == [level[1]];
    } else if n > 2 {
      var k := Split(n);
      var a, b := level[..k], level[k..];
      assert level == a + b;
      PairUpConcat(h, a, b);
      var up := PairUp(h, level);
      SplitUnique(|up|, k / 2);
      assert up[..k / 2] == PairUp(h, a) && up[k / 2..] == PairUp(h, b);
      PairUpKeepsRoot(h, a);
      PairUpKeepsRoot(h, b);
    }
  }

  function Leaves(vs: seq<ComputeVerification>): (r: seq<bytes>)
    ensures |r| == |vs|
  {
    seq(|vs|, i requires 0 <= i < |vs| => LeafData(vs[i]))
  }

  function LeafHashes(h: Hash, ds: seq<bytes>): (r: seq<Digest>)
    ensures |r| == |ds|
  {
    seq<Digest>(|ds|, i requires 0 <= i < |ds| => h(LeafInput(ds[i])))
  }

  lemma {:induction false} FoldOfLeaves(h: Hash, ds: seq<bytes>)
    requires ds != []
    ensures Fold(h, LeafHashes(h, ds)) == TreeHash(h, ds)
    decreases |ds|
  {
    if |ds| > 1 {
      var k := Split(|ds|);
      assert LeafHashes(h, ds)[..k] == LeafHashes(h, ds[..k]);
      assert LeafHashes(h, ds)[k..] == LeafHashes(h, ds[k..]);
      FoldOfLeaves(h, ds[..k]);
      FoldOfLeaves(h, ds[k..]);
    }
  }

  const EMPTY: bytes := Ascii("empty_verifications")

  /** The commitment, as the RFC's recursion defines it. */
  function Root(h: Hash, vs: seq<ComputeVerification>): Digest
  {
    if vs == [] then h(EMPTY) else TreeHash(h, Leaves(vs))
  }

  /** One pass of the inner loop: the next level of the tree. */
  method NextLevel(h: Hash, level: seq<Digest>) returns (next: seq<Digest>)
    ensures next == PairUp(h, level)
  {
    next := [];
    var i := 0;
    while i < |level|
      invariant 0 <= i <= |level| + 1
      invariant i <= |level| ==> next + PairUp(h, level[i..]) == PairUp(h, level)
      invariant i > |level| ==> next == PairUp(h, level)
    {
      if i + 1 < |level| {
        var top := h(NodeInput(level[i], level[i + 1]));
        assert level[i..][2..] == level[i + 2..];
        ConcatAssoc(next, [top], PairUp(h, level[i + 2..]));
        next := next + [top];
      } else {
        next := next + [level[i]];
      }
      i := i + 2;
    }
  }

  /** computeVerificationsMerkleRoot returns the RFC 6962 tree hash. */
  method ComputeVerificationsMerkleRoot(h: Hash, vs: seq<ComputeVerification>) returns (root: Digest)
    ensures root == Root(h, vs)
  {
    if |vs| == 0 {
      return h(EMPTY);
    }
    ghost var leaves := LeafHashes(h, Leaves(vs));
    var level: seq<Digest> := [];
    for i := 0 to |vs|
      invariant level == leaves[..i]
    {
      level := level + [ComputeVerificationHash(h, vs[i])];
    }
    assert level == leaves;
    FoldOfLeaves(h, Leaves(vs));
    while |level| > 1
      invariant level != []
      invariant Fold(h, level) == Root(h, vs)
      decreases |level|
    {
      PairUpKeepsRoot(h, level);
      level := NextLevel(h, level);
    }
    return level[0];
  }

  // ---------------------------------------------------------------- binding

  /** The byte strings hashed while computing TreeHash. */
  ghost function TreeInputs(h: Hash, ds: seq<bytes>): set<bytes>
    requires ds != []
    decreases |ds|
  {
    if |ds| == 1 then {LeafInput(ds[0])}
    else
      var k := Split(|ds|);
      {NodeInput(TreeHash(h, ds[..k]), TreeHash(h, ds[k..]))} + TreeInputs(h, ds[..k]) + TreeInputs(h, ds[k..])
  }

  /** The byte strings hashed while computing Root. */
  ghost function RootInputs(h: Hash, vs: seq<ComputeVerification>): set<bytes>
  {
    if vs == [] then {EMPTY} else TreeInputs(h, Leaves(vs))
  }

  /** Two different inputs with one digest, one from each set. */
  ghost predicate CollisionBetween(h: Hash, s: set<bytes>, t: set<bytes>)
  {
    exists x, y :: x in s && y in t && x != y && h(x) == h(y)
  }

  lemma CollisionWidens(h: Hash, s: set<bytes>, t: set<bytes>, s': set<bytes>, t': set<bytes>)
    requires CollisionBetween(h, s, t) && s <= s' && t <= t'
    ensures CollisionBetween(h, s', t')
  {
  }

  lemma NodeInputInjective(l: Digest, r: Digest, m: Digest, s: Digest)
    requires NodeInput(l, r) == NodeInput(m, s)
    ensures l == m && r == s
  {
    SameWidth([1], [1], l + r, m + s);
    SameWidth(l, m, r, s);
  }

  lemma SamePieces(ds: seq<bytes>, es: seq<bytes>, j: nat, k: nat)
    requires j <= |ds| && k <= |es| && ds[..j] == es[..k] && ds[j..] == es[k..]
    ensures ds == es
  {
    assert ds == ds[..j] + ds[j..] && es == es[..k] + es[k..];
  }

  /** A binding failure in either half is one in the whole. */
  lemma HalvesBind(h: Hash, ds: seq<bytes>, es: seq<bytes>)
    requires |ds| > 1 && |es| > 1
    requires var j, k := Split(|ds|), Split(|es|);
      && (ds[..j] == es[..k] || CollisionBetween(h, TreeInputs(h, ds[..j]), TreeInputs(h, es[..k])))
      && (ds[j..] == es[k..] || CollisionBetween(h, TreeInputs(h, ds[j..]), TreeInputs(h, es[k..])))
    ensures ds == es || CollisionBetween(h, TreeInputs(h, ds), TreeInputs(h, es))
  {
    var j, k := Split(|ds|), Split(|es|);
    if ds[..j] != es[..k] {
      CollisionWidens(h, TreeInputs(h, ds[..j]), TreeInputs(h, es[..k]), TreeInputs(h, ds), TreeInputs(h, es));
    } else if ds[j..] != es[k..] {
      CollisionWidens(h, TreeInputs(h, ds[j..]), TreeInputs(h, es[k..]), TreeInputs(h, ds), TreeInputs(h, es));
    } else {
      SamePieces(ds, es, j, k);
    }
  }

  /** The last input hashed, whose digest is the tree's. */
  ghost function TopInput(h: Hash, ds: seq<bytes>): (x: bytes)
    requires ds != []
    ensures h(x) == TreeHash(h, ds) && x in TreeInputs(h, ds)
    ensures x != [] && (x[0] == 0 <==> |ds| == 1) && (x[0] == 1 <==> |ds| > 1)
  {
    if |ds| == 1 then LeafInput(ds[0])
    else NodeInput(TreeHash(h, ds[..Split(|ds|)]), TreeHash(h, ds[Split(|ds|)..]))
  }

  lemma {:induction false} TreeBinds(h: Hash, ds: seq<bytes>, es: seq<bytes>)
    requires ds != [] && es != [] && TreeHash(h, ds) == TreeHash(h, es)
    ensures ds == es || CollisionBetween(h, TreeInputs(h, ds), TreeInputs(h, es))
    decreases |ds|
  {
    var x := TopInput(h, ds);
    var y := TopInput(h, es);
    if x == y {
      if |ds| == 1 {
        SameWidth([0], [0], ds[0], es[0]);
        assert ds == [ds[0]] && es == [es[0]];
      } else {
        var j, k := Split(|ds|), Split(|es|);
        NodeInputInjective(TreeHash(h, ds[..j]), TreeHash(h, ds[j..]), TreeHash(h, es[..k]), TreeHash(h, es[k..]));
        TreeBinds(h, ds[..j], es[..k]);
        TreeBinds(h, ds[j..], es[k..]);
        HalvesBind(h, ds, es);
      }
    }
  }

  /** The fields a leaf commits to. */
  predicate SameClaim(v: ComputeVerification, w: ComputeVerification)
  {
    && v.jobID == w.jobID && v.modelHash == w.modelHash && v.inputHash == w.inputHash
    && v.outputHash == w.outputHash && v.success == w.success
  }

  datatype HashLengths = HashLengths(model: nat, input: nat, output: nat)

  function Lengths(v: ComputeVerification): HashLengths
  {
    HashLengths(|v.modelHash|, |v.inputHash|, |v.outputHash|)
  }

  /** A leaf carries no lengths, so it is read from its end backwards. */
  lemma LeafDetermines(v: ComputeVerification, w: ComputeVerification)
    requires Lengths(v) == Lengths(w) && LeafData(v) == LeafData(w)
    ensures SameClaim(v, w)
  {
    var dom := Ascii("verification:");
    var fv, fw := [if v.success then 1 else 0], [if w.success then 1 else 0];
    SameWidth(dom, dom, v.jobID + (v.modelHash + (v.inputHash + (v.outputHash + fv))),
              w.jobID + (w.modelHash + (w.inputHash + (w.outputHash + fw))));
    SameWidth(v.jobID, w.jobID, v.modelHash + (v.inputHash + (v.outputHash + fv)),
              w.modelHash + (w.inputHash + (w.outputHash + fw)));
    SameWidth(v.modelHash, w.modelHash, v.inputHash + (v.outputHash + fv), w.inputHash + (w.outputHash + fw));
    SameWidth(v.inputHash, w.inputHash, v.outputHash + fv, w.outputHash + fw);
    SameWidth(v.outputHash, w.outputHash, fv, fw);
    assert fv[0] == fw[0];
  }

  function ZeroClaim(job: nat, p: HashLengths): (v: ComputeVerification)
    ensures Lengths(v) == p && |v.jobID| == job
  {
    ComputeVerification(Zeros(job), Zeros(p.model), Zeros(p.input), Zeros(p.output),
                        [], None, None, 0, false, [], [], [])
  }

  /** A leaf binds its claim exactly when both sides use the same three hash lengths: for any
      other pair of length profiles two different claims share their leaf bytes. */
  lemma {:induction false} LeafBindsIffLengthsAgree(p: HashLengths, q: HashLengths)
    ensures p == q <==>
            (forall v, w :: Lengths(v) == p && Lengths(w) == q && LeafData(v) == LeafData(w) ==> SameClaim(v, w))
  {
    if p == q {
      forall v, w | Lengths(v) == p && Lengths(w) == q && LeafData(v) == LeafData(w)
        ensures SameClaim(v, w)
      {
        LeafDetermines(v, w);
      }
    } else {
      var v := ZeroClaim(q.model + q.input + q.output, p);
      var w := ZeroClaim(p.model + p.input + p.output, q);
      assert LeafData(v)
          == Ascii("verification:") + Zeros(p.model + p.input + p.output + q.model + q.input + q.output) + [0];
      assert LeafData(w) == LeafData(v);
      assert !SameClaim(v, w);
    }
  }

  /** Equal roots bind lists of any lengths whose hashes have the fixed lengths p (32, 32, 32 for
      SHA-256): same length and the same claims leaf by leaf, or two distinct inputs hashed for
      the two roots have one digest. */
  lemma {:induction false} RootBinds(h: Hash, p: HashLengths, vs: seq<ComputeVerification>,
                                     ws: seq<ComputeVerification>)
    requires forall i :: 0 <= i < |vs| ==> Lengths(vs[i]) == p
    requires forall i :: 0 <= i < |ws| ==> Lengths(ws[i]) == p
    requires Root(h, vs) == Root(h, ws)
    ensures (|vs| == |ws| && forall i :: 0 <= i < |vs| ==> SameClaim(vs[i], ws[i]))
         || CollisionBetween(h, RootInputs(h, vs), RootInputs(h, ws))
  {
    assert EMPTY[0] == 101;
    if vs == [] && ws == [] {
    } else if vs == [] {
      var y := TopInput(h, Leaves(ws));
      assert EMPTY in RootInputs(h, vs) && y in RootInputs(h, ws);
    } else if ws == [] {
      var x := TopInput(h, Leaves(vs));
      assert x in RootInputs(h, vs) && EMPTY in RootInputs(h, ws);
    } else {
      TreeBinds(h, Leaves(vs), Leaves(ws));
      if Leaves(vs) == Leaves(ws) {
        forall i | 0 <= i < |vs|
          ensures SameClaim(vs[i], ws[i])
        {
          assert Leaves(vs)[i] == Leaves(ws)[i];
          LeafDetermines(vs[i], ws[i]);
        }
      }
    }
  }

  /** Two verifications bind at the root of the one-element lists. */
  ghost predicate RootBindsPair(h: Hash, v: ComputeVerification, w: ComputeVerification)
  {
    Root(h, [v]) == Root(h, [w]) ==> SameClaim(v, w) || CollisionBetween(h, RootInputs(h, [v]), RootInputs(h, [w]))
  }

  lemma OneLeaf(h: Hash, v: ComputeVerification)
    ensures Root(h, [v]) == h(LeafInput(LeafData(v))) && RootInputs(h, [v]) == {LeafInput(LeafData(v))}
  {
    assert Leaves([v]) == [LeafData(v)];
  }

  /** For every hash function, roots bind claims of two length profiles exactly when the profiles are
      the same: for any other pair two different claims have one root without any collision. */
  lemma {:induction false} RootBindsIffLengthsAgree(h: Hash, p: HashLengths, q: HashLengths)
    ensures p == q <==> (forall v, w :: Lengths(v) == p && Lengths(w) == q ==> RootBindsPair(h, v, w))
  {
    if p == q {
      forall v, w | Lengths(v) == p && Lengths(w) == q
        ensures RootBindsPair(h, v, w)
      {
        if Root(h, [v]) == Root(h, [w]) {
          RootBinds(h, p, [v], [w]);
          assert SameClaim([v][0], [w][0]) || CollisionBetween(h, RootInputs(h, [v]), RootInputs(h, [w]));
        }
      }
    } else {
      LeafBindsIffLengthsAgree(p, q);
      var v, w :| Lengths(v) == p && Lengths(w) == q && LeafData(v) == LeafData(w) && !SameClaim(v, w);
      OneLeaf(h, v);
      OneLeaf(h, w);
      assert !RootBindsPair(h, v, w);
    }
  }

  /** The root by its defining equations, in bytes: a fixed string for no verifications, 0x00 and the leaf for one,
      and 0x01 with the left root before the right one for more, split at the largest power of two. */
  lemma {:induction false} RootEquations(h: Hash, vs: seq<ComputeVerification>, k: nat)
    ensures Root(h, []) == h(Ascii("empty_verifications"))
    ensures |vs| == 1 ==> Root(h, vs) == h([0] + LeafData(vs[0]))
    ensures |vs| > 1 && IsPow2(k) && k < |vs| <= 2 * k ==>
      Root(h, vs) == h([1] + (Root(h, vs[..k]) + Root(h, vs[k..])))
  {
    if |vs| > 1 && IsPow2(k) && k < |vs| <= 2 * k {
      SplitUnique(|vs|, k);
      assert Leaves(vs)[..k] == Leaves(vs[..k]) && Leaves(vs)[k..] == Leaves(vs[k..]);
    }
  }
}
