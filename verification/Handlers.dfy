/**
 The two vote-extension handlers of app/abci.go together: what ExtendVote emits on one validator, as
 VerifyVoteExtension judges it on another.
 */
module Handlers {
  import opened Encoding
  import opened VoteTypes
  import opened Cache
  import opened ExtendVote
  import VerifyVote

  /** A receiver that decodes and checks signatures as the emitter does, runs in the same mode, knows
      the last block time if it is strict, and has the emitter's key registered for its address. */
  ghost predicate Receives(v: VerifyVote.Verifier, env: Env, strict: bool, addr: bytes)
  {
    && (forall data :: v.dec(data) == env.json.dec(data))
    && v.strict == strict && (strict ==> v.lastBlockTime.Some?)
    && (env.key.Some? ==>
          && Sound(env.key.value)
          && v.pubKey(addr) == Some(env.key.value.pub)
          && forall ve, pub :: v.signatureOk(ve, pub) == VerifySignature(env, env.key.value.verify, ve, pub))
  }

  /** The emitted extension names the emitter's height and address, and is signed if there is a key. */
  lemma EmittedHeader(env: Env, ve: VoteExtension, vs: seq<ComputeVerification>)
    requires Emitted(env, ve, vs).Some?
    ensures var u := Emitted(env, ve, vs).value;
      && u.version == ve.version && u.height == ve.height && u.validatorAddress == ve.validatorAddress
      && u.timestamp == ve.timestamp && u.nonce == ve.nonce && u.verifications == vs
      && (env.key.None? ==> u.signature == [])
      && (env.key.Some? && Sound(env.key.value) ==> |u.signature| == 64)
  {
  }

  /** Whatever ExtendVote emits for at most 100 sorted results, VerifyVoteExtension accepts exactly when
      the rules on fields (and, in strict mode, on quote schemas) accept the extension it decodes to:
      size, count, height, address, hash, signature and codec never stand in the way. */
  lemma {:induction false} EmittedAcceptedIff(env: Env, strict: bool, height: int64, addr: bytes, blockTime: int,
                                              vs: seq<ComputeVerification>, data: bytes, v: VerifyVote.Verifier)
    requires Lossless(env.json) && |vs| <= MAX_VERIFICATIONS && Receives(v, env, strict, addr)
    requires Answers(env, strict, Header(height, addr, blockTime), vs, Extension(data))
    ensures data != [] && env.json.dec(data).Some?
    ensures var ve := env.json.dec(data).value;
      && ve.version == 1 && ve.height == height && ve.validatorAddress == addr && ve.timestamp == blockTime
      && ve.nonce == [] && ve.verifications <= vs
    ensures var ve := env.json.dec(data).value;
      VerifyVote.Accepts(v, Call(height, addr, data)) <==> v.validate(ve) && (strict ==> v.schemasOk(ve))
  {
    var header := Header(height, addr, blockTime);
    var n: nat :| StopsAt(env, header, vs, n) && Extension(data) == AnswerAt(env, header, vs, n);
    EmittedIsAuthentic(env, header, vs[..n]);
    EmittedHeader(env, header, vs[..n]);
  }
}
