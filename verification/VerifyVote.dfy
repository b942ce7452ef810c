/**
 The VerifyVoteExtension handler of app/abci.go and what it lets into the cache. Field validation,
 the staking lookup and ed25519 are parameters, and may differ from call to call.
 */
module VerifyVote {
  import opened Encoding
  import opened VoteTypes
  import opened Cache

  /** The node's view at one call: decoding, validation mode, the clock (None when there is no last
      block time), field and schema validation at that clock, and signature checking. */
  datatype Verifier = Verifier(
    dec: bytes -> Option<VoteExtension>,
    strict: bool,
    lastBlockTime: Option<int>,
    validate: VoteExtension -> bool,
    schemasOk: VoteExtension -> bool,
    pubKey: bytes -> Option<bytes>,
    signatureOk: (VoteExtension, bytes) -> bool)

  /** The checks on a non-empty extension. */
  predicate Passes(v: Verifier, c: Call)
  {
    && |c.ext| <= MAX_SIZE
    && v.dec(c.ext).Some?
    && var ve := v.dec(c.ext).value;
       && |ve.verifications| <= MAX_VERIFICATIONS
       && ve.height == c.height
       && ve.validatorAddress == c.addr
       && (v.strict ==> v.lastBlockTime.Some?)
       && v.validate(ve)
       && (v.strict ==> v.schemasOk(ve))
       && (if ve.signature != [] then
             v.pubKey(ve.validatorAddress).Some? && v.signatureOk(ve, v.pubKey(ve.validatorAddress).value)
           else !v.strict)
  }

  predicate Accepts(v: Verifier, c: Call)
  {
    c.ext == [] || Passes(v, c)
  }

  /** One request: accepted extensions are stored, rejected ones leave no trace. */
  predicate HandlerStep(v: Verifier, chainID: bytes, max: nat, m: Heights, c: Call, r: Heights)
  {
    if Accepts(v, c) then StoreStep(chainID, max, m, c, r) else r == m
  }

  method Handle(v: Verifier, cache: VoteExtensionCache?, height: int64, addr: bytes, ext: bytes) returns (accept: bool)
    modifies cache
    ensures accept == Accepts(v, Call(height, addr, ext))
    ensures cache != null ==>
      HandlerStep(v, cache.chainID, cache.maxHeights, old(cache.byHeight), Call(height, addr, ext), cache.byHeight)
  {
    if |ext| == 0 {
      if cache != null && |addr| > 0 {
        cache.Store(height, addr, []);
      }
      return true;
    }
    if |ext| > MAX_SIZE {
      return false;
    }
    var parsed := v.dec(ext);
    if parsed.None? {
      return false;
    }
    var ve := parsed.value;
    if |ve.verifications| > MAX_VERIFICATIONS || ve.height != height || ve.validatorAddress != addr {
      return false;
    }
    if v.lastBlockTime.None? && v.strict {
      return false;
    }
    if !v.validate(ve) {
      return false;
    }
    if v.strict && !v.schemasOk(ve) {
      return false;
    }
    if |ve.signature| > 0 {
      var pub := v.pubKey(ve.validatorAddress);
      if pub.None? || !v.signatureOk(ve, pub.value) {
        return false;
      }
    } else if v.strict {
      return false;
    }
    if cache != null {
      cache.Store(height, addr, ext);
    }
    return true;
  }

  // ---------------------------------------------------------------- every run

  datatype Request = Request(v: Verifier, call: Call)

  /** The cache states of a run of the handler, from an empty cache. */
  ghost predicate Run(chainID: bytes, max: nat, reqs: seq<Request>, states: seq<Heights>)
  {
    && |states| == |reqs| + 1 && states[0] == map[]
    && forall i :: 0 <= i < |reqs| ==> HandlerStep(reqs[i].v, chainID, max, states[i], reqs[i].call, states[i + 1])
  }

  /** Some request stored exactly this, and was accepted when it did. */
  ghost predicate WasVerified(reqs: seq<Request>, c: Call)
  {
    exists i :: 0 <= i < |reqs| && reqs[i].call == c && Accepts(reqs[i].v, c)
  }

  ghost predicate AllVerified(chainID: bytes, reqs: seq<Request>, m: Heights)
  {
    forall h, addr :: h in m && CacheKey(chainID, addr) in m[h] ==>
      WasVerified(reqs, Call(h, addr, m[h][CacheKey(chainID, addr)]))
  }

  lemma VerifiedLater(reqs: seq<Request>, q: Request, c: Call)
    requires WasVerified(reqs, c)
    ensures WasVerified(reqs + [q], c)
  {
    var i :| 0 <= i < |reqs| && reqs[i].call == c && Accepts(reqs[i].v, c);
    assert (reqs + [q])[i] == reqs[i];
  }

  lemma StepVerified(chainID: bytes, max: nat, reqs: seq<Request>, q: Request, m: Heights, r: Heights)
    requires AllVerified(chainID, reqs, m) && HandlerStep(q.v, chainID, max, m, q.call, r)
    ensures AllVerified(chainID, reqs + [q], r)
  {
    forall h, addr | h in r && CacheKey(chainID, addr) in r[h]
      ensures WasVerified(reqs + [q], Call(h, addr, r[h][CacheKey(chainID, addr)]))
    {
      var key := CacheKey(chainID, addr);
      if Accepts(q.v, q.call) && h == q.call.height && key == CacheKey(chainID, q.call.addr) && Accepted(q.call) {
        CacheKeyInjective(chainID, addr, chainID, q.call.addr);
        assert (reqs + [q])[|reqs|] == q;
      } else {
        VerifiedLater(reqs, q, Call(h, addr, r[h][key]));
      }
    }
  }

  /** In every run, what the cache holds for a height and validator passed verification for that
      height and validator, or is empty. */
  lemma {:induction false} CacheHoldsVerified(chainID: bytes, max: nat, reqs: seq<Request>, states: seq<Heights>)
    requires Run(chainID, max, reqs, states)
    ensures AllVerified(chainID, reqs, states[|reqs|])
  {
    if reqs != [] {
      var n := |reqs| - 1;
      CacheHoldsVerified(chainID, max, reqs[..n], states[..n + 1]);
      StepVerified(chainID, max, reqs[..n], reqs[n], states[n], states[n + 1]);
      assert reqs == reqs[..n] + [reqs[n]];
    }
  }

  /** So a commit vote counts as evidence only through an extension that decoded, named the vote's
      height and validator, and had its signature checked whenever the node was strict. */
  lemma {:induction false} EvidenceWasVerified(chainID: bytes, max: nat, reqs: seq<Request>, states: seq<Heights>,
                                               height: int64, votes: seq<CommitVote>, i: nat)
    requires Run(chainID, max, reqs, states) && i < |votes|
    requires Extended(states[|reqs|], chainID, height, votes)[i].ext != []
    ensures exists k ::
              && 0 <= k < |reqs|
              && reqs[k].call == Call(height, votes[i].address, Extended(states[|reqs|], chainID, height, votes)[i].ext)
              && Passes(reqs[k].v, reqs[k].call)
  {
    CacheHoldsVerified(chainID, max, reqs, states);
    var c := Call(height, votes[i].address, Extended(states[|reqs|], chainID, height, votes)[i].ext);
    assert WasVerified(reqs, c);
  }

  // ---------------------------------------------------------------- no replay

  /** The bytes of one extension are accepted for one height and one validator only, by whichever nodes, as long
      as they decode them alike. */
  lemma {:induction false} NoReplay(v: Verifier, w: Verifier, c: Call, d: Call)
    requires Accepts(v, c) && Accepts(w, d) && c.ext == d.ext != [] && v.dec(c.ext) == w.dec(c.ext)
    ensures c.height == d.height && c.addr == d.addr
  {
  }

  /** The node read the bytes as an extension of this height and validator, of at most 100 entries in at most
      5 MB, that its rules accept. A signature was checked under the validator's registered key; a strict node
      knew the last block time, checked the quote schemas and insisted on a signature. */
  ghost predicate Vetted(v: Verifier, ext: bytes, height: int64, addr: bytes)
  {
    exists ve: VoteExtension ::
      && v.dec(ext) == Some(ve) && ve.height == height && ve.validatorAddress == addr
      && |ext| <= 5_242_880 && |ve.verifications| <= 100 && v.validate(ve)
      && (ve.signature != [] ==> exists pub :: v.pubKey(addr) == Some(pub) && v.signatureOk(ve, pub))
      && (v.strict ==> ve.signature != [] && v.lastBlockTime.Some? && v.schemasOk(ve))
  }

  lemma {:induction false} AcceptsIffVetted(v: Verifier, c: Call)
    requires c.ext != []
    ensures Accepts(v, c) <==> Vetted(v, c.ext, c.height, c.addr)
  {
    if Accepts(v, c) {
      var ve := v.dec(c.ext).value;
      if ve.signature != [] {
        assert v.pubKey(c.addr) == Some(v.pubKey(c.addr).value);
      }
      assert v.dec(c.ext) == Some(ve);
    }
  }

  /** In every run, each non-empty entry the cache holds for a height and validator was vetted for them. */
  lemma {:induction false} CachedWasVetted(chainID: bytes, max: nat, reqs: seq<Request>, states: seq<Heights>,
                                           height: int64, addr: bytes)
    requires Run(chainID, max, reqs, states)
    requires height in states[|reqs|] && CacheKey(chainID, addr) in states[|reqs|][height]
    requires states[|reqs|][height][CacheKey(chainID, addr)] != []
    ensures exists k ::
      0 <= k < |reqs| && Vetted(reqs[k].v, states[|reqs|][height][CacheKey(chainID, addr)], height, addr)
  {
    CacheHoldsVerified(chainID, max, reqs, states);
    var c := Call(height, addr, states[|reqs|][height][CacheKey(chainID, addr)]);
    assert WasVerified(reqs, c);
    var k :| 0 <= k < |reqs| && reqs[k].call == c && Accepts(reqs[k].v, c);
    AcceptsIffVetted(reqs[k].v, c);
  }
}
