/**
 The ExtendVote handler of app/abci.go: collect verification results, sort them, sign, and trim
 from the end until the marshalled extension fits. JSON and ed25519 are parameters.
 */
module ExtendVote {
  import opened Encoding
  import opened VoteTypes
  import opened ExtensionHash
  import opened Ordering
  import Merkle

  const VOTE_EXTENSION_VERSION: int32 := 1

  /** Everything the handler takes from outside. */
  datatype Env = Env(json: JsonCodec<VoteExtension>, digest: VoteExtension -> Digest, key: Option<Signer>)

  /** The digest is ComputeHash over a hash function of bytes. */
  ghost predicate Hashes(env: Env, h: bytes -> Digest)
  {
    forall ve :: env.digest(ve) == ComputeHash(h, ve)
  }

  /** The hash of an extension, which leaves its signature and stored hash out. */
  function HashOf(env: Env, ve: VoteExtension): Digest
  {
    env.digest(Bare(ve))
  }

  lemma HashOfIsComputeHash(env: Env, h: bytes -> Digest, ve: VoteExtension)
    requires Hashes(env, h)
    ensures HashOf(env, ve) == ComputeHash(h, ve)
  {
    HashIgnores(h, Bare(ve), ve);
  }

  function Hashed(env: Env, ve: VoteExtension): VoteExtension
  {
    ve.(extensionHash := HashOf(env, ve))
  }

  /** SignVoteExtension on a value: None when marshalling for signing fails. */
  function Signed(env: Env, k: Signer, ve: VoteExtension): Option<VoteExtension>
  {
    var u := Hashed(env, ve);
    match env.json.enc(u.(signature := []))
    case None => None
    case Some(m) => Some(u.(signature := k.sign(m)))
  }

  /** VerifyVoteExtensionSignature. */
  predicate VerifySignature(env: Env, verify: (bytes, bytes, bytes) -> bool, ve: VoteExtension, pub: bytes)
  {
    && |ve.signature| == 64
    && |pub| == 32
    && ve.extensionHash == HashOf(env, ve)
    && var m := env.json.enc(ve.(signature := []));
       m.Some? && verify(pub, m.value, ve.signature)
  }

  /** The extension one round of the loop emits for a list of verifications: hashed, signed if
      there is a key, unsigned otherwise. */
  function Emitted(env: Env, ve: VoteExtension, vs: seq<ComputeVerification>): Option<VoteExtension>
  {
    var u := ve.(verifications := vs, signature := []);
    match env.key
    case None => Some(Hashed(env, u))
    case Some(k) => Signed(env, k, u)
  }

  /** The bytes emitted for the first n of the verifications: None is a signing or marshalling error. */
  function Output(env: Env, ve: VoteExtension, vs: seq<ComputeVerification>, n: nat): Option<bytes>
    requires n <= |vs|
  {
    match Emitted(env, ve, vs[..n])
    case None => None
    case Some(u) => env.json.enc(u)
  }

  datatype Response = Nil | Extension(data: bytes) | Error

  predicate TooLarge(env: Env, ve: VoteExtension, vs: seq<ComputeVerification>, n: nat)
    requires n <= |vs|
  {
    Output(env, ve, vs, n).Some? && |Output(env, ve, vs, n).value| > MAX_SIZE
  }

  /** The answer for the prefix of length n at which trimming stops. A failure to marshal the
      whole list is reported as an error, every later failure as an empty extension. */
  function AnswerAt(env: Env, ve: VoteExtension, vs: seq<ComputeVerification>, n: nat): Response
    requires n <= |vs|
  {
    match Output(env, ve, vs, n)
    case Some(data) => if |data| <= MAX_SIZE then Extension(data) else Nil
    case None => if n == |vs| && Emitted(env, ve, vs[..n]).Some? then Error else Nil
  }

  /** n is the longest prefix that is not too large (or the empty one, if all are). */
  ghost predicate StopsAt(env: Env, ve: VoteExtension, vs: seq<ComputeVerification>, n: nat)
  {
    && n <= |vs|
    && (forall m :: n < m <= |vs| ==> TooLarge(env, ve, vs, m))
    && (n > 0 ==> !TooLarge(env, ve, vs, n))
  }

  /** What the handler must answer once it has sorted its verifications into vs. */
  ghost predicate Answers(env: Env, strict: bool, ve: VoteExtension, vs: seq<ComputeVerification>, r: Response)
  {
    if strict && env.key.None? then r == Nil
    else exists n: nat :: StopsAt(env, ve, vs, n) && r == AnswerAt(env, ve, vs, n)
  }

  lemma HashIgnoresHash(env: Env, ve: VoteExtension)
    ensures Hashed(env, Hashed(env, ve)) == Hashed(env, ve)
    ensures env.key.Some? && Signed(env, env.key.value, ve).Some?
        ==> Hashed(env, Signed(env, env.key.value, ve).value) == Signed(env, env.key.value, ve).value
    ensures ve.extensionHash == HashOf(env, ve) ==> Hashed(env, ve) == ve
  {
    assert Bare(Hashed(env, ve)) == Bare(ve);
    if env.key.Some? && Signed(env, env.key.value, ve).Some? {
      assert Bare(Signed(env, env.key.value, ve).value) == Bare(ve);
    }
  }

  lemma SignatureDoesNotMatter(env: Env, k: Signer, ve: VoteExtension)
    ensures Signed(env, k, ve.(signature := [])) == Signed(env, k, ve)
  {
    var u := ve.(signature := []);
    assert Bare(u) == Bare(ve);
    assert Hashed(env, u).(signature := []) == Hashed(env, ve).(signature := []);
  }

  /** The VoteExtension under construction, updated in place. */
  class Draft {
    var ve: VoteExtension

    /** NewVoteExtensionAtBlockTime. */
    constructor (height: int64, addr: bytes, blockTime: int)
      ensures ve == VoteExtension(VOTE_EXTENSION_VERSION, height, addr, [], blockTime, [], [], [])
    {
      ve := VoteExtension(VOTE_EXTENSION_VERSION, height, addr, [], blockTime, [], [], []);
    }

    method AddVerification(v: ComputeVerification)
      modifies this
      ensures ve == old(ve).(verifications := old(ve).verifications + [v])
    {
      ve := ve.(verifications := ve.verifications + [v]);
    }

    /** The library sort, of which only its contract is promised. */
    method SortVerifications()
      modifies this
      ensures ve == old(ve).(verifications := ve.verifications)
      ensures SortOf(ve.verifications, old(ve).verifications)
    {
      ve := ve.(verifications := Sort(ve.verifications));
    }

    method SignWith(env: Env, k: Signer) returns (ok: bool)
      modifies this
      ensures ok <==> Signed(env, k, old(ve)).Some?
      ensures ok ==> ve == Signed(env, k, old(ve)).value
      ensures !ok ==> ve == Hashed(env, old(ve))
    {
      ve := Hashed(env, ve);
      var m := env.json.enc(ve.(signature := []));
      if m.None? {
        return false;
      }
      ve := ve.(signature := k.sign(m.value));
      return true;
    }

    method Marshal(env: Env) returns (data: Option<bytes>)
      modifies this
      ensures ve == Hashed(env, old(ve)) && data == env.json.enc(ve)
    {
      ve := Hashed(env, ve);
      data := env.json.enc(ve);
    }

    /** Sign if there is a key (clearing a stale signature otherwise) and marshal. */
    method SignAndMarshal(env: Env) returns (signed: bool, data: Option<bytes>)
      modifies this
      ensures signed <==> Emitted(env, old(ve), old(ve).verifications).Some?
      ensures signed ==> ve == Emitted(env, old(ve), old(ve).verifications).value
      ensures signed ==> data == env.json.enc(ve)
    {
      match env.key {
        case Some(k) =>
          SignatureDoesNotMatter(env, k, ve);
          signed := SignWith(env, k);
          if !signed {
            return false, None;
          }
        case None =>
          ve := ve.(signature := []);
          signed := true;
      }
      HashIgnoresHash(env, ve);
      data := Marshal(env);
    }
  }

  predicate SameHeader(a: VoteExtension, b: VoteExtension)
  {
    a == b.(verifications := a.verifications, signature := a.signature, extensionHash := a.extensionHash)
  }

  /** The emission depends on the header fields only, not on a stale hash or signature. */
  lemma SameEmission(env: Env, a: VoteExtension, b: VoteExtension, vs: seq<ComputeVerification>)
    requires SameHeader(a, b)
    ensures Emitted(env, a, vs) == Emitted(env, b, vs)
    ensures Emitted(env, a, vs).Some? ==> SameHeader(Emitted(env, a, vs).value, b)
    ensures Emitted(env, a, vs).Some? ==> Emitted(env, a, vs).value.verifications == vs
  {
    var u, w := a.(verifications := vs, signature := []), b.(verifications := vs, signature := []);
    assert Bare(u) == Bare(w);
    assert Hashed(env, u) == Hashed(env, w);
  }

  /** One round of the loop: drop the last verification, sign again, marshal again. */
  method DropLast(env: Env, draft: Draft, ghost header: VoteExtension, ghost vs: seq<ComputeVerification>)
    returns (data: Option<bytes>)
    requires SameHeader(draft.ve, header) && 0 < |draft.ve.verifications| <= |vs|
    requires draft.ve.verifications == vs[..|draft.ve.verifications|]
    modifies draft
    ensures data == Output(env, header, vs, |old(draft.ve).verifications| - 1)
    ensures data.Some? ==>
      SameHeader(draft.ve, header) && draft.ve.verifications == vs[..|old(draft.ve).verifications| - 1]
  {
    ghost var n := |draft.ve.verifications| - 1;
    draft.ve := draft.ve.(verifications := draft.ve.verifications[..|draft.ve.verifications| - 1]);
    assert draft.ve.verifications == vs[..n];
    SameEmission(env, draft.ve, header, vs[..n]);
    var signed, d := draft.SignAndMarshal(env);
    return if signed then d else None;
  }

  /** The trimming loop, given the form marshalled first: the answer is the longest prefix of the
      verifications that fits. */
  method Trim(env: Env, draft: Draft, first: bytes, ghost header: VoteExtension)
    returns (r: Response, ghost n: nat)
    requires SameHeader(draft.ve, header)
    requires Output(env, header, draft.ve.verifications, |draft.ve.verifications|) == Some(first)
    modifies draft
    ensures StopsAt(env, header, old(draft.ve).verifications, n)
    ensures r == AnswerAt(env, header, old(draft.ve).verifications, n)
  {
    ghost var vs := draft.ve.verifications;
    var data := first;
    n := |vs|;
    while |data| > MAX_SIZE && |draft.ve.verifications| > 0
      invariant SameHeader(draft.ve, header)
      invariant n <= |vs| && draft.ve.verifications == vs[..n]
      invariant Output(env, header, vs, n) == Some(data)
      invariant forall m :: n < m <= |vs| ==> TooLarge(env, header, vs, m)
      decreases |draft.ve.verifications|
    {
      assert TooLarge(env, header, vs, n);
      var d := DropLast(env, draft, header, vs);
      n := n - 1;
      if d.None? {
        return Nil, n;
      }
      data := d.value;
    }
    r := if |data| > MAX_SIZE then Nil else Extension(data);
  }

  function Min(a: nat, b: nat): nat { if a < b then a else b }

  function Header(height: int64, addr: bytes, blockTime: int): VoteExtension
  {
    VoteExtension(VOTE_EXTENSION_VERSION, height, addr, [], blockTime, [], [], [])
  }

  /** The bounded verification loop: at most MAX_VERIFICATIONS results, and no more than the
      budget allows. */
  method Collect(height: int64, addr: bytes, blockTime: int, results: seq<ComputeVerification>, budget: nat)
    returns (draft: Draft)
    ensures fresh(draft)
    ensures draft.ve == Header(height, addr, blockTime).(
              verifications := results[..Min(Min(budget, MAX_VERIFICATIONS), |results|)])
  {
    draft := new Draft(height, addr, blockTime);
    var i := 0;
    while i < |results|
      invariant 0 <= i <= Min(Min(budget, MAX_VERIFICATIONS), |results|)
      invariant draft.ve == Header(height, addr, blockTime).(verifications := results[..i])
      invariant fresh(draft)
    {
      if |draft.ve.verifications| >= MAX_VERIFICATIONS {
        break;
      }
      if i >= budget {
        break;
      }
      draft.AddVerification(results[i]);
      i := i + 1;
    }
  }

  /** ExtendVote for a validator whose assigned jobs give `results` and whose wall-clock budget
      allows `budget` of them. */
  method Handle(env: Env, strict: bool, height: int64, addr: bytes, blockTime: int,
                results: seq<ComputeVerification>, budget: nat)
    returns (r: Response, ghost sorted: seq<ComputeVerification>)
    ensures |results| == 0 ==> r == Nil
    ensures |results| > 0 ==>
      && SortOf(sorted, results[..Min(Min(budget, MAX_VERIFICATIONS), |results|)])
      && Answers(env, strict, Header(height, addr, blockTime), sorted, r)
  {
    if |results| == 0 {
      return Nil, [];
    }
    var draft := Collect(height, addr, blockTime, results, budget);
    draft.SortVerifications();
    sorted := draft.ve.verifications;
    ghost var header := Header(height, addr, blockTime);
    SameEmission(env, draft.ve, header, sorted);
    if env.key.None? && strict {
      return Nil, sorted;
    }
    assert sorted[..|sorted|] == sorted;
    var signed, data := draft.SignAndMarshal(env);
    if !signed {
      assert StopsAt(env, header, sorted, |sorted|);
      return Nil, sorted;
    }
    if data.None? {
      assert StopsAt(env, header, sorted, |sorted|);
      return Error, sorted;
    }
    ghost var n;
    r, n := Trim(env, draft, data.value, header);
  }

  /** Whatever is emitted carries the hash of its own content, and passes signature verification
      under the configured key. */
  lemma {:induction false} EmittedIsAuthentic(env: Env, ve: VoteExtension, vs: seq<ComputeVerification>)
    requires Emitted(env, ve, vs).Some?
    ensures var u := Emitted(env, ve, vs).value;
      && u.verifications == vs && u.extensionHash == HashOf(env, u)
      && (env.key.Some? && Sound(env.key.value)
          ==> VerifySignature(env, env.key.value.verify, u, env.key.value.pub))
  {
    var w := ve.(verifications := vs, signature := []);
    var u := Emitted(env, ve, vs).value;
    assert Bare(u) == Bare(w);
    if env.key.Some? {
      assert u.(signature := []) == Hashed(env, w).(signature := []);
    }
  }

  lemma EmissionDecodes(env: Env, strict: bool, ve: VoteExtension, vs: seq<ComputeVerification>, data: bytes)
    returns (u: VoteExtension)
    requires Lossless(env.json) && Answers(env, strict, ve, vs, Extension(data))
    ensures |data| <= MAX_SIZE && env.json.dec(data) == Some(u)
    ensures u.verifications <= vs && StopsAt(env, ve, vs, |u.verifications|) && u.extensionHash == HashOf(env, u)
    ensures env.key.Some? && Sound(env.key.value) ==> VerifySignature(env, env.key.value.verify, u, env.key.value.pub)
  {
    var n: nat :| StopsAt(env, ve, vs, n) && Extension(data) == AnswerAt(env, ve, vs, n);
    EmittedIsAuthentic(env, ve, vs[..n]);
    u := env.json.dec(data).value;
  }

  /** What a receiver makes of the bytes. */
  ghost predicate DecodesTo(env: Env, h: bytes -> Digest, vs: seq<ComputeVerification>, data: bytes, u: VoteExtension)
  {
    && env.json.dec(data) == Some(u) && u.verifications <= vs && u.extensionHash == ComputeHash(h, u)
    && (env.key.Some? && Sound(env.key.value) ==> VerifySignature(env, env.key.value.verify, u, env.key.value.pub))
  }

  lemma DecodedHash(env: Env, h: bytes -> Digest, vs: seq<ComputeVerification>, data: bytes, u: VoteExtension)
    requires Hashes(env, h) && env.json.dec(data) == Some(u)
    requires u.verifications <= vs && u.extensionHash == HashOf(env, u)
    requires env.key.Some? && Sound(env.key.value) ==> VerifySignature(env, env.key.value.verify, u, env.key.value.pub)
    ensures DecodesTo(env, h, vs, data, u)
  {
    HashOfIsComputeHash(env, h, u);
  }

  /** The emitted bytes decode, at any receiver, to the longest fitting prefix of the sorted
      verifications, with a matching hash and a valid signature. */
  lemma {:induction false} ExtensionDecodes(env: Env, h: bytes -> Digest, strict: bool, ve: VoteExtension,
                                            vs: seq<ComputeVerification>, data: bytes)
    returns (u: VoteExtension)
    requires Lossless(env.json) && Hashes(env, h) && Answers(env, strict, ve, vs, Extension(data))
    ensures |data| <= MAX_SIZE && DecodesTo(env, h, vs, data, u) && StopsAt(env, ve, vs, |u.verifications|)
  {
    u := EmissionDecodes(env, strict, ve, vs, data);
    DecodedHash(env, h, vs, data, u);
  }

  /** The answer is determined by the sorted verifications. */
  lemma {:induction false} AnswerIsUnique(env: Env, strict: bool, ve: VoteExtension, vs: seq<ComputeVerification>,
                                          r: Response, q: Response)
    requires Answers(env, strict, ve, vs, r) && Answers(env, strict, ve, vs, q)
    ensures r == q
  {
    if !(strict && env.key.None?) {
      var m: nat :| StopsAt(env, ve, vs, m) && r == AnswerAt(env, ve, vs, m);
      var n: nat :| StopsAt(env, ve, vs, n) && q == AnswerAt(env, ve, vs, n);
      assert m == n;
    }
  }

  /** A validator that processed the same jobs, with distinct JobIDs, in another order sorts them
      into the same list: same Merkle root, same hash, same response. */
  lemma {:induction false} OrderIndependent(env: Env, h: bytes -> Digest, strict: bool, ve: VoteExtension,
                                            xs: seq<ComputeVerification>, ys: seq<ComputeVerification>,
                                            s: seq<ComputeVerification>, t: seq<ComputeVerification>, r: Response,
                                            q: Response)
    requires DistinctJobs(xs) && multiset(xs) == multiset(ys) && SortOf(s, xs) && SortOf(t, ys)
    requires Answers(env, strict, ve, s, r) && Answers(env, strict, ve, t, q)
    ensures Merkle.Root(h, s) == Merkle.Root(h, t)
    ensures ComputeHash(h, ve.(verifications := s)) == ComputeHash(h, ve.(verifications := t))
    ensures r == q
  {
    CanonicalOrder(xs, ys, s, t);
    AnswerIsUnique(env, strict, ve, s, r, q);
  }

  // ---------------------------------------------------------------- from verifying back to signing

  /** The check accepts one signature for two messages under one key. */
  ghost predicate AcceptsTwo(verify: (bytes, bytes, bytes) -> bool, pub: bytes, sig: bytes)
  {
    exists m, n :: m != n && verify(pub, m, sig) && verify(pub, n, sig)
  }

  /** Exactly those extensions pass signature verification that carry the hash of their own content and whose
      signature the key accepts for their marshalled form. */
  lemma {:induction false} VerifiesIffAuthentic(env: Env, h: bytes -> Digest, verify: (bytes, bytes, bytes) -> bool,
                                                ve: VoteExtension, pub: bytes)
    requires Hashes(env, h)
    ensures VerifySignature(env, verify, ve, pub) <==>
      && |ve.signature| == 64 && |pub| == 32 && ve.extensionHash == ComputeHash(h, ve)
      && exists m :: env.json.enc(ve.(signature := [])) == Some(m) && verify(pub, m, ve.signature)
  {
    HashOfIsComputeHash(env, h, ve);
    if VerifySignature(env, verify, ve, pub) {
      var m := env.json.enc(ve.(signature := [])).value;
      assert env.json.enc(ve.(signature := [])) == Some(m);
    }
  }

  /** One signature verifies under one key for one extension only, unless the key accepts it for two messages. */
  lemma {:induction false} OneSignatureOneExtension(env: Env, verify: (bytes, bytes, bytes) -> bool, x: VoteExtension,
                                                    y: VoteExtension, pub: bytes)
    requires Lossless(env.json) && x.signature == y.signature
    requires VerifySignature(env, verify, x, pub) && VerifySignature(env, verify, y, pub)
    ensures x == y || AcceptsTwo(verify, pub, x.signature)
  {
    var m, n := env.json.enc(x.(signature := [])).value, env.json.enc(y.(signature := [])).value;
    if m == n {
      assert x == x.(signature := []).(signature := x.signature);
      assert y == y.(signature := []).(signature := y.signature);
    } else {
      assert verify(pub, m, x.signature) && verify(pub, n, x.signature);
    }
  }

  // ---------------------------------------------------------------- which answer

  /** The first n verifications marshal to data, and every longer prefix to more than 5 MB. */
  predicate LongestFit(env: Env, ve: VoteExtension, vs: seq<ComputeVerification>, n: nat, data: bytes)
  {
    && n <= |vs| && Output(env, ve, vs, n) == Some(data)
    && forall m :: n < m <= |vs| ==> Output(env, ve, vs, m).Some? && |Output(env, ve, vs, m).value| > 5_242_880
  }

  lemma ExtensionAnswer(env: Env, strict: bool, ve: VoteExtension, vs: seq<ComputeVerification>, data: bytes)
    ensures Answers(env, strict, ve, vs, Extension(data)) <==>
      (env.key.None? ==> !strict) && |data| <= 5_242_880 && exists n: nat :: LongestFit(env, ve, vs, n, data)
  {
    if Answers(env, strict, ve, vs, Extension(data)) {
      var n: nat :| StopsAt(env, ve, vs, n) && Extension(data) == AnswerAt(env, ve, vs, n);
      forall m | n < m <= |vs|
        ensures Output(env, ve, vs, m).Some? && |Output(env, ve, vs, m).value| > 5_242_880
      {
        assert TooLarge(env, ve, vs, m);
      }
      assert LongestFit(env, ve, vs, n, data);
    }
    if n: nat :| LongestFit(env, ve, vs, n, data) {
      if |data| <= 5_242_880 {
        assert StopsAt(env, ve, vs, n) && AnswerAt(env, ve, vs, n) == Extension(data);
      }
    }
  }

  /** The handler answers with an error exactly when the whole list can be signed but not marshalled, and with
      an extension exactly when that is the form of the longest prefix that fits into 5 MB. A strict node
      without a key answers with neither. */
  lemma {:induction false} AnswerCases(env: Env, strict: bool, ve: VoteExtension, vs: seq<ComputeVerification>)
    ensures Answers(env, strict, ve, vs, Error) <==>
      && (env.key.None? ==> !strict)
      && Emitted(env, ve, vs).Some? && env.json.enc(Emitted(env, ve, vs).value).None?
    ensures forall data :: Answers(env, strict, ve, vs, Extension(data)) <==>
      (env.key.None? ==> !strict) && |data| <= 5_242_880 && exists n: nat :: LongestFit(env, ve, vs, n, data)
  {
    assert vs[..|vs|] == vs;
    if Emitted(env, ve, vs).Some? && env.json.enc(Emitted(env, ve, vs).value).None? {
      assert StopsAt(env, ve, vs, |vs|) && AnswerAt(env, ve, vs, |vs|) == Error;
    }
    forall data
      ensures Answers(env, strict, ve, vs, Extension(data)) <==>
        (env.key.None? ==> !strict) && |data| <= 5_242_880 && exists n: nat :: LongestFit(env, ve, vs, n, data)
    {
      ExtensionAnswer(env, strict, ve, vs, data);
    }
  }
}
