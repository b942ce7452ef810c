# Vote extensions, proposals and rate limiting: a Dafny model

This project models the Proof-of-Useful-Work vote path of the Aethelred node and its token-bucket
rate limiter, and proves what they guarantee. `dafny verify dfyconfig.toml` checks all of it.

A validator answers *ExtendVote* with the verification results it computed, sorted, hashed, signed and
trimmed to size. Other validators check the extension (*VerifyVoteExtension*) and cache it. A proposer
aggregates the extensions of the last commit and injects one transaction per job that reached
consensus (*PrepareProposal*); every validator audits those transactions and, where its cache allows,
recomputes them (*ProcessProposal*).

| file | what it models |
|---|---|
| `Encoding.dfy` | bytes, big-endian integers, int64 wrap-around, hexadecimal, string order |
| `VoteTypes.dfy` | the records, with JSON as an abstract codec |
| `ExtensionHash.dfy`, `HashWriter.dfy` | the bytes that are hashed and signed, and the loops that write them |
| `Merkle.dfy` | the Merkle commitment and section 2.1 of RFC 6962 |
| `SignatureCodec.dfy`, `AppSignature.dfy` | the wire formats and the application-level signature |
| `Layout.dfy` | the byte formats as tables of fields |
| `Ordering.dfy`, `ExtendVote.dfy` | canonical order, and the sort, sign and trim loop |
| `VerifyVote.dfy`, `Cache.dfy` | the verification handler and the bounded cache |
| `Handlers.dfy` | what one validator emits, as another verifies it |
| `Aggregation.dfy`, `QuorumTally.dfy` | the power tally and what it guarantees |
| `Evidence.dfy`, `Finality.dfy` | quorum arithmetic, the audit, the finality check |
| `PrepareProposal.dfy`, `ProcessProposal.dfy` | the fallback proposer and the decision on a proposal |
| `ProposalLimits.dfy` | when a fallback proposal is accepted, and commits on which it fails or claims too much |
| `CacheSplit.dfy` | how far the decision depends on the validator's own cache |
| `RateLimit.dfy`, `RateLimiter.dfy` | the limiter as a state machine, and the objects that follow it |
| `CleanupInvisible.dfy`, `CleanupExact.dfy`, `RateWindow.dfy` | what every run of the limiter keeps |
| `GrantLaw.dfy` | which requests are granted, and what each of them pays |
| `EvictionOrder.dfy`, `EvictionCost.dfy` | when the eviction is deterministic, and what it costs |

How outside things are modelled:

- SHA-256 is an arbitrary function to 32 bytes. Binding results end in "or these two inputs collide",
  and the inputs are ones that the two computations really hashed.
- JSON is a pair of partial functions; where it matters it is assumed lossless. ed25519 is a signing
  function, a public key and a check that accepts what was signed.
- A Go string is a byte sequence. A Go map is iterated in an arbitrary order. int64 arithmetic wraps;
  absence of overflow is a hypothesis of the theorems that need it, never of the code.
- An instant is a number of nanoseconds (its `UnixNano()` wraps), or a real number of seconds in the
  limiter. The clock of the limiter does not run backwards and is read once per call.
- The keeper's aggregation and seal validation, the job store, module parameters, the staking lookup
  and per-field validation are parameters.

Where the code and its comments differ, the model follows the code:

- The comments of ProcessProposal say that a cache-dependent split cannot occur. A restart is safe, but
  two validators with different caches can disagree. They never do exactly when neither has an entry for
  the commit or both attach the same extensions to it (`VerdictsAgreeIff`). `PartialCacheRejects` is a case
  that does not depend on what the keeper computes or on which extension it is: a proposal backed by all
  three validators, rejected by a node whose handler has verified one of the three extensions.
- The comments on the Merkle root promise that no two lists share a root. A leaf carries no lengths, so
  this holds, up to collisions, exactly for equal hash lengths (`LeafBindsIffLengthsAgree`, and at the root
  `RootBindsIffLengthsAgree`).
- The aggregation adds a vote's power once per successful entry, and validation (lines 411-468 of
  app/vote_extension.go) does not reject repeated entries. The tally counts votes exactly when no extension
  reports one output of a job twice (`CountedOnceIff`). `RepeatedEntryWins` is about every commit in
  which one vote of three lists its result three times, whatever else the extensions hold: it wins with all of
  the power and passes audit and acceptance. The proposer does not validate extensions again.
- The required power is the intended one exactly while `totalPower * threshold` is an int64
  (`RequiredPowerExact`), and with a threshold of 100 not even all votes reach it (`UnanimityReaches`).
- Sorting is canonical exactly when entries with one JobID are equal (`CanonicalIffJobDetermines`). Two
  validators then agree on the list and its Merkle root; the extension hash also covers the address.
- The fallback proposer counts only the votes it can decode, the audit counts all commit votes, so a proposal
  built from a partial commit fails its own audit (`PassesIffAllPresent`, with the simplest
  such commits in `PartialCommitFails`). The proposer has no cap on results either, so from a commit with more than 50
  consensus jobs it builds what every validator rejects (`ManyJobsRejected`).
- Eviction is called deterministic. It has one possible victim exactly when the oldest last use is not shared
  (`VictimUniqueIff`), and runs whose calls come at different instants are fully determined
  (`StrictRunsDetermined`). A tie can be observed (`TieObserved`).
- An evicted address gets a full new bucket, so a full table undoes the per-address limit
  (`EvictionBreaksBound`, exact in `BoundedWhateverSharedIff`).

## Model

| member | source | states |
|---|---|---|
| Merkle.ComputeVerificationsMerkleRoot | app/vote_extension_signing.go:645-676 | the level-by-level loop terminates and returns, for every hash function, the recursive Merkle Tree Hash of RFC 6962 over the leaf data, or the fixed digest for no verifications |
| Merkle.NextLevel | app/vote_extension_signing.go:658-672 | one pass hashes neighbours in pairs and promotes an odd last hash |
| Merkle.PairUpKeepsRoot | app/vote_extension_signing.go:656-673 | a pairing round leaves the root of the tree that is split at the largest power of two unchanged |
| Merkle.RootEquations | app/vote_extension_signing.go:645-676 | in bytes: the root of nothing is the hash of a fixed string, of one verification the hash of 0x00 and its leaf, of more the hash of 0x01, the left root and the right root, split at the largest power of two below the count |
| Merkle.TreeBinds | app/vote_extension_signing.go:638-676 | equal tree hashes of two leaf lists of any lengths mean equal lists, or two different inputs hashed for the two trees collide |
| Merkle.LeafBindsIffLengthsAgree | app/vote_extension_signing.go:678-697 | a leaf determines JobID, the three hashes and Success for two length profiles exactly when the profiles are the same |
| Merkle.RootBinds | app/vote_extension_signing.go:638-697 | equal roots of lists of any lengths, one possibly empty, with fixed hash lengths mean the same claims leaf by leaf, or a collision among the inputs hashed |
| Merkle.RootBindsIffLengthsAgree | app/vote_extension_signing.go:638-697 | for every hash, the roots of single claims with two length profiles bind them, up to a collision among the inputs hashed, exactly when the profiles are the same |
| ExtensionHash.PreimageDetermines | app/vote_extension.go:222-325 | two extensions feed the same bytes to the hash exactly when all fields but Signature and ExtensionHash agree, through verification lists, optional TEE and ZK records and certificate chains, instants as int64 nanoseconds |
| ExtensionHash.HashBinds | app/vote_extension.go:222-325 | equal extension hashes mean equal content or a collision of the two preimages |
| ExtensionHash.SigningBytesDetermine | app/vote_extension_signing.go:596-636 | the signed bytes are equal exactly when every field of the signature record is |
| HashWriter.ComputeExtensionHash | app/vote_extension.go:224-325 | the sequence of writes, loops included, produces the preimage that the hash results are about |
| HashWriter.WriteVerification | app/vote_extension.go:277-322 | one pass of the loop writes one verification in field order with its optional records |
| HashWriter.SerializeSignatureData | app/vote_extension_signing.go:597-636 | the buffer writes produce the signing bytes |
| Layout.PreimageLayout | app/vote_extension.go:222-325 | what is hashed is the domain string and every field in the order of a table, numbers in 4 or 8 big-endian bytes and byte strings after a 4-byte length |
| Layout.MessageLayout | app/vote_extension_signing.go:139-241 | what is signed in a context is the domain string, version, chain, height, round, the first 20 bytes of the key hash, instant, hash of the marshalled extension, Merkle root and nonce, in this order and with these widths; there is nothing to sign exactly when the extension does not marshal |
| Layout.VerifiesIff | app/vote_extension_signing.go:188-241 | a signature verifies in a context exactly when it has 64 bytes and its 32-byte key accepts it for that message; no signature never does |
| Layout.SignatureLayout | app/vote_extension_signing.go:699-727 | a signature is one version byte, three byte strings after 2-byte lengths and an 8-byte instant; a nil one is a zero byte |
| Layout.FrameLayout | app/vote_extension_signing.go:295-306 | a frame is the extension and the signature, each after its 4-byte length |
| Layout.LeafLayout | app/vote_extension_signing.go:678-697 | a leaf is 0x00, a domain string, JobID, model, input and output hash run together, and one success byte |
| Layout.HexLayout | app/vote_extension.go:807 | byte i of a hash becomes characters 2i and 2i+1 of its key, high half first, in lower case |
| SignatureCodec.Reader.ReadByte | app/vote_extension_signing.go:739-744 | the cursor moves by one byte, or fails at the end |
| SignatureCodec.Reader.ReadFull | app/vote_extension_signing.go:746-750 | all requested bytes or an error |
| SignatureCodec.Reader.Read | app/vote_extension_signing.go:751-754 | fails only at the end, even for nothing; a short read leaves zeros |
| SignatureCodec.MarshalSignature | app/vote_extension_signing.go:699-727 | the buffer holds version, three length-prefixed fields and the instant; one zero byte for nil |
| SignatureCodec.UnmarshalSignature | app/vote_extension_signing.go:729-785 | the cursor-driven decoder computes the functional decoder on every byte string, in bounds |
| SignatureCodec.SignatureRoundTrip | app/vote_extension_signing.go:699-785 | decoding gives a signature back exactly when its fields are under 2^16 bytes and its instant is an int64; nil always comes back |
| SignatureCodec.TruncatedSignature | app/vote_extension_signing.go:729-785 | every strict prefix is rejected but the two that read as nil: the empty one and a lone zero version byte |
| SignatureCodec.DecodesIff | app/vote_extension_signing.go:729-785 | on every byte string: a signature is decoded exactly when its own encoding is a prefix and its fields fit; nil is read exactly from nothing and from one zero byte; everything else is rejected |
| SignatureCodec.CheckedSize | app/vote_extension_signing.go:314-333 | succeeds exactly when both parts are at most 16 MB, with a total that fits 32 bits |
| SignatureCodec.WriteFrame | app/vote_extension_signing.go:295-306 | the slice copies fill the frame completely, or the size check fails |
| SignatureCodec.FrameReads | app/vote_extension_signing.go:336-359 | a frame followed by anything gives its two parts back |
| SignatureCodec.TruncatedFrame | app/vote_extension_signing.go:336-359 | no strict prefix of a frame is accepted |
| SignatureCodec.ReadFrameIff | app/vote_extension_signing.go:336-359 | on every byte string: two parts are read exactly when both are at most 16 MB and their frame is a prefix |
| SignatureCodec.EnhancedRoundTrip | app/vote_extension_signing.go:281-377 | what is marshalled decodes to the same extension and signature, and no strict prefix of it decodes |
| SignatureCodec.UnmarshalsIff | app/vote_extension_signing.go:336-377 | on every byte string: an extension and signature are decoded exactly when a frame of a non-empty marshalled extension and of that signature is a prefix |
| AppSignature.SignThenVerify | app/vote_extension_signing.go:139-241 | a signature verifies in the context it was made in and survives the wire |
| AppSignature.ContextsSeparate | app/vote_extension_signing.go:139-241 | equal signed bytes, under any keys and instants, mean the same chain, height, round, nonce, version, instant, signer address and Merkle root, and the same extension unless its marshalled forms collide |
| AppSignature.OneSignatureOneContext | app/vote_extension_signing.go:188-241 | one signature is accepted in one context only, up to a collision of marshalled extensions, unless its key accepts it for two messages |
| Ordering.CanonicalIffJobDetermines | app/vote_extension.go:212-220 | any two sorts by JobID agree exactly when entries with one JobID are equal |
| Ordering.CanonicalOrder | app/vote_extension.go:212-220 | with distinct JobIDs two orderings of the same verifications sort to one sequence |
| Ordering.SortedAscends | app/vote_extension.go:212-220 | with distinct JobIDs the sorted list has them in strictly ascending order |
| Encoding.LessIsLexicographic | app/vote_extension.go:217-219 | the order of JobIDs is the lexicographic one: a proper prefix, or the smaller byte at the first difference, comes first |
| ExtendVote.Draft.SortVerifications | app/vote_extension.go:216-220 | the list is replaced by a sorted permutation, nothing else changes |
| ExtendVote.Draft.SignWith | app/vote_extension.go:973-986 | hash and signature are set from the content, or marshalling failed |
| ExtendVote.Draft.Marshal | app/vote_extension.go:327-332 | the stored hash is recomputed before encoding |
| ExtendVote.Collect | app/abci.go:85-103 | exactly the first results are taken, up to the count cap and the time budget |
| ExtendVote.DropLast | app/abci.go:143-161 | one round drops the last verification and emits the re-signed prefix |
| ExtendVote.Trim | app/abci.go:136-177 | the loop stops at the longest prefix that is not too large and answers with its marshalled form |
| ExtendVote.Handle | app/abci.go:67-187 | the response is the one for the sorted results: longest fitting prefix, empty extension or error |
| ExtendVote.EmittedIsAuthentic | app/vote_extension.go:972-1018 | what is emitted carries the hash of its own content and passes signature verification |
| ExtendVote.VerifiesIffAuthentic | app/vote_extension.go:989-1018 | exactly those extensions pass that carry the hash of their own content and a 64-byte signature that the 32-byte key accepts for their marshalled form |
| ExtendVote.OneSignatureOneExtension | app/vote_extension.go:989-1018 | one signature verifies under one key for one extension only, unless the key accepts it for two messages |
| ExtendVote.ExtensionDecodes | app/abci.go:105-187 | the bytes decode to the longest fitting prefix of the sorted list with matching hash and valid signature |
| ExtendVote.AnswerIsUnique | app/abci.go:131-187 | the sorted list determines the response |
| ExtendVote.AnswerCases | app/abci.go:131-187 | an error exactly when the whole list can be signed but not marshalled; an extension exactly when it is the form of the longest prefix that fits into 5 MB; neither from a strict node without a key |
| ExtendVote.OrderIndependent | app/abci.go:105-108 | processing the same jobs in another order gives the same Merkle root, hash and response |
| VerifyVote.Handle | app/abci.go:203-357 | accepts exactly the empty and the verified extensions (`AcceptsIffVetted`), and stores exactly what it accepts |
| VerifyVote.AcceptsIffVetted | app/abci.go:203-357 | a non-empty extension is accepted exactly when it is at most 5 MB, reads as one that names this height and validator with at most 100 verifications, passes the field rules, any signature is accepted under that validator's registered key, and in strict mode it is signed, the last block time is known and the quote schemas pass |
| VerifyVote.NoReplay | app/abci.go:203-357 | the same bytes are never accepted for two heights or two validators |
| VerifyVote.CacheHoldsVerified | app/vote_extension_cache.go:16-23 | in every run each cached extension was accepted for that height and validator |
| VerifyVote.CachedWasVetted | app/vote_extension_cache.go:16-23 | in every run each non-empty cached extension came with a request that met all those conditions for its own height and validator |
| VerifyVote.EvidenceWasVerified | app/abci.go:642-650 | a commit vote counts as evidence only through an extension that passed verification for its height and validator |
| Handlers.EmittedAcceptedIff | app/abci.go:203-357 | what ExtendVote emits for at most 100 sorted results names version 1, its height, address and block time and a prefix of the results, and is accepted by a receiver in the same mode with the key registered exactly when the field rules, and in strict mode the quote schemas, accept the decoded extension |
| Cache.CacheKeyInjective | app/vote_extension_cache.go:129-133 | keys of different chains or different validators never collide |
| Cache.VoteExtensionCache.constructor | app/vote_extension_cache.go:31-43 | an empty cache; a non-positive bound becomes 4 |
| Cache.VoteExtensionCache.Store | app/vote_extension_cache.go:50-70 | ignores bad calls, otherwise inserts and keeps the newest heights |
| Cache.VoteExtensionCache.Prune | app/vote_extension_cache.go:135-151 | leaves exactly the newest heights, untouched |
| Cache.StoreRefines | app/vote_extension_cache.go:50-70 | one call keeps the agreement with the unbounded log, also for heights dropped earlier |
| Cache.CacheRefinesLog | app/vote_extension_cache.go:12-70 | after any calls the heights held are the newest ever accepted, and each entry is the last one stored for it in the full history |
| Cache.NewestUnique | app/vote_extension_cache.go:135-151 | which heights are kept leaves no choice |
| Cache.HeightsKept | app/vote_extension_cache.go:50-70 | after any calls a height has entries exactly when some call stored to it and fewer than the bound of stored heights are newer |
| Cache.StoreThenFind | app/vote_extension_cache.go:50-70 | a call with a positive height and an address overwrites its own entry and no other of the heights that are kept; any other call changes nothing |
| Cache.ExtendedMeans | app/vote_extension_cache.go:72-112 | each vote with an address gets exactly what the cache holds for the height and that address, else nothing, and the count is positive exactly when there is something for one vote |
| Cache.BuildExtendedVotes | app/vote_extension_cache.go:72-112 | votes in order, each with its cached extension or none, and the number of hits; a nil cache attaches nothing |
| Cache.AttachesLast | app/vote_extension_cache.go:72-112 | in every run what is attached is the last extension the validator stored for that height |
| Aggregation.AggregateVoteExtensions | app/vote_extension.go:762-867 | for every iteration order each reported job gets some output that reaches the required power, if there is one; `ConsensusIff`, `WinnerIsBacked` and `ResultDescribesJob` say in terms of the votes what the result is |
| Aggregation.TallyVotes | app/vote_extension.go:790-846 | the three maps hold the attestations, powers and first hashes of all successful entries |
| Aggregation.Record | app/vote_extension.go:807-844 | one entry extends its own row and leaves the others alone |
| Aggregation.DecideJob | app/vote_extension.go:850-863 | scanning the outputs in any order finds one that reaches the power, or there is none |
| QuorumTally.TallyCountsVotes | app/vote_extension.go:790-846 | where no vote repeats an entry, an output's power and attestation count are the weight and number of the votes that report it |
| QuorumTally.CountedOnceIff | app/vote_extension.go:790-832 | for votes of positive weight, every output of every job is tallied with the weight of the votes behind it exactly when no vote has two successful entries with the same JobID and OutputHash |
| QuorumTally.TallyConserves | app/vote_extension.go:772-846 | the powers of a job's outputs add up to the weight of the votes that succeeded on it, at most the total; so do the int64 values held in the map while the total is an int64 |
| QuorumTally.UniqueWinner | app/vote_extension.go:788-864 | from 50 percent on, no two outputs of a job reach the required power |
| QuorumTally.ThresholdExact | app/vote_extension.go:762-788 | a percentage rules two winners out for all votes exactly when it is at least 50 |
| QuorumTally.MapOrderIrrelevant | app/vote_extension.go:848-867 | from 50 percent on, all iteration orders give one result |
| QuorumTally.VoteOrderIrrelevant | app/vote_extension.go:762-867 | from 50 percent on, permuting the votes changes no job's consensus flag, output, power or counts |
| QuorumTally.WinnerIsBacked | app/vote_extension.go:848-864 | a winner's power and count are those of exactly the votes that report its output; attestation by attestation, in vote order, it names that vote's validator and extension instant and repeats its output, attestation type, proofs and execution time |
| QuorumTally.ResultDescribesJob | app/vote_extension.go:772-864 | there is a result for exactly the jobs that some vote succeeds on, or none without power where simulation is not allowed; it carries the totals, the model and input hash of the first successful entry by vote and then by entry, and nothing of an output unless one won |
| QuorumTally.ConsensusIff | app/vote_extension.go:772-864 | a job reaches consensus exactly when the votes behind one of its outputs weigh strictly more than the percentage of all votes; without power each vote weighs 1 where simulation is allowed, and nothing is decided where it is not |
| Evidence.RequiredPowerExact | app/consensus_evidence.go:96-106 | the formula is the intended one exactly while the product is an int64 |
| Evidence.MoreThanTwoThirds | app/consensus_evidence.go:96-106 | a quorum is strictly more than two thirds |
| Evidence.QuorumIff | app/consensus_evidence.go:96-106 | power meets the requirement exactly when it is strictly more than the threshold, but at least 67 percent, of the total |
| Evidence.UnanimityReaches | app/consensus_evidence.go:96-106 | all votes together form a quorum exactly when the threshold is at most 99 |
| Evidence.QuorumIntersection | app/consensus_evidence.go:96-106 | two quorums of one commit share more than a third of its power |
| Evidence.CommitVoteTotals | app/consensus_evidence.go:171-177 | the loop returns the number of votes and the wrapped sum of their powers |
| Evidence.EvidenceOk | app/consensus_evidence.go:179-198 | true exactly for a well-formed claim that matches the commit and holds a quorum |
| Evidence.AuditTx | app/consensus_evidence.go:71-91 | one transaction raises exactly its issues: unparsable, job seen earlier, or evidence mismatch |
| Evidence.AuditProposal | app/consensus_evidence.go:62-94 | the totals, the injected count and all issues in order |
| Evidence.AuditPassesIffSound | app/consensus_evidence.go:62-94 | no issues exactly when all injected transactions parse, match the commit and carry different jobs |
| Evidence.IssueIff | app/consensus_evidence.go:62-94 | issue by issue, for every index and job: unparsable, job claimed by an earlier transaction, or a claim that is not true of the votes and power of the commit or below the threshold, exactly then |
| Evidence.IssuesInOrder | app/consensus_evidence.go:62-94 | issues come in the order of the transactions, a duplicate before a mismatch, and none twice |
| Evidence.PassedClaimsQuorum | app/consensus_evidence.go:179-198 | each injected transaction of a passing proposal claims more than two thirds of the real commit power |
| Finality.CollectConsensus | app/consensus_finality.go:11-21 | succeeds exactly when all consensus results meet the threshold, and then files each under its JobID |
| Finality.CollectInjected | app/consensus_finality.go:23-36 | succeeds exactly when all injected transactions parse and carry different jobs |
| Finality.CheckResults | app/consensus_finality.go:38-56 | every result is carried by a transaction that agrees on output, powers and counts |
| Finality.ValidateComputationFinality | app/consensus_finality.go:10-69 | nil exactly when all consensus results meet the threshold and the injected transactions match them as filed by JobID; for results keyed by JobID, exactly on an exact match whatever the map orders |
| Finality.MatchFiled | app/consensus_finality.go:23-66 | the last three loops succeed exactly when the transactions match the results as filed |
| Finality.MatchIsBijection | app/consensus_finality.go:38-66 | an exact match pairs transactions and consensus jobs one to one |
| Finality.ExactIffPlain | app/consensus_finality.go:10-69 | an exact match, in terms of decoded transactions: every injected one parses, no two share a job, each has a consensus result with the same output, counts and powers, and each consensus result has a transaction, positive power and a quorum |
| PrepareProposal.CollectVotes | app/abci.go:408-422 | keeps exactly the votes whose extension is present and decodes |
| PrepareProposal.Fallback | app/abci.go:407-438 | one transaction per consensus result that can be encoded, in front of the untouched mempool; `HonestProposalTellsTruth` says what each one states |
| PrepareProposal.HonestProposalPasses | app/abci.go:407-438 | when every commit vote has a usable, well-behaved extension, total power is positive and does not overflow, the threshold is at least 67 and the mempool holds no injected transaction, every proposal it can build passes the audit without issues |
| PrepareProposal.HonestProposalTellsTruth | app/abci.go:407-438 | under these conditions every injected transaction, as it decodes, states the block height, the votes and power of the commit, an agreement power that is that of exactly the votes reporting its output and more than two thirds, and as many attestations as such votes, each of them theirs |
| PrepareProposal.PartialProposalFails | app/abci.go:409-417 | a proposal that carries a result fails the audit as soon as one commit vote was skipped |
| PrepareProposal.PassesIffAllPresent | app/abci.go:407-438 | under the same conditions, a proposal that carries a result passes exactly when no commit vote lacks a decodable extension |
| PrepareProposal.CarriedPass | app/abci.go:427-438 | a proposal whose claims are well-formed and match the commit passes the audit |
| ProposalLimits.HonestAcceptedIff | app/abci.go:454-640 | an honest fallback proposal is accepted, by a node without keeper outside production mode, exactly when it carries at most 50 results, is at most 5 MB long and all its jobs exist |
| ProposalLimits.KeeperAcceptedIff | app/abci.go:454-640 | a node with a keeper accepts a proposal whose claims match the commit exactly when it keeps to the caps, every seal validates and, unless the chain simulates, the cache has no entry for the commit or backs a quorum and gives the same results |
| ProposalLimits.HonestAcceptedByKeeperIff | app/abci.go:454-640 | an honest fallback proposal is accepted by a node with keeper and a cache without entries for the commit exactly when it keeps to the caps and every seal validates |
| ProposalLimits.OverCapRejected | app/abci.go:514-535 | a fallback proposal with more than 50 results is rejected by every validator |
| ProposalLimits.PartialCommitFails | app/abci.go:409-417 | for every lossless codec and every commit of two votes where one lists a job and the other has no extension: the first decides alone, and the audit raises exactly one commit-evidence mismatch |
| ProposalLimits.RepeatedEntryWins | app/vote_extension.go:802-832 | for every commit of three equal votes where one lists its result three times and the others report nothing: the only possible aggregation claims all the power for what a third backs, and the proposal passes the audit and is accepted |
| ProposalLimits.ManyJobsRejected | app/abci.go:426-438 | from every commit of one vote that lists more than 50 different jobs, whatever the fallback builds carries them all and is rejected |
| ProposalLimits.SuchCommitsExist | app/abci.go:409-422 | for every job and output there are commits of the three kinds, with 32-byte hashes and each extension under its own address |
| ProposalLimits.SuchCodecsExist | app/vote_extension.go:927-950 | for all results filed under their non-empty JobIDs there is a lossless codec that encodes them |
| ProcessProposal.EvidencePower | app/abci.go:642-650 | the wrapped power of all votes and of those with an extension |
| ProcessProposal.RequiredVotesIsCeiling | app/consensus_evidence.go:159-168 | the vote fallback asks for the least number of votes that is at least the percentage |
| ProcessProposal.InjectedTxOkIff | app/abci.go:653-680 | a well-formed transaction passes exactly when its job exists and its power is strictly beyond the percentage or, without power and only where simulation is allowed, its votes are at least the percentage |
| ProcessProposal.ExtensionKeepsPower | app/vote_extension_cache.go:78-112 | extending the votes keeps their order, number and power |
| ProcessProposal.EvidenceBounded | app/abci.go:642-650 | evidence power is between zero and the total, and so are the int64 results while the total is an int64 |
| ProcessProposal.EvidenceQuorumIff | app/abci.go:610-612 | the cached extensions back a quorum exactly when there is power and the votes with an extension hold strictly more than the threshold of it |
| ProcessProposal.CheckCache | app/abci.go:583-634 | the cross-check applies exactly when the cache has an entry for the commit |
| ProcessProposal.Process | app/abci.go:454-640 | ACCEPT exactly when configuration, audit, caps, per-transaction checks and cross-check all agree; `KeeperAcceptedIff`, `HonestAcceptedIff` and `AcceptedWasValidated` spell them out |
| ProcessProposal.AcceptedClaimsQuorum | app/abci.go:497-535 | an accepted proposal has at most 50 injected transactions and 5 MB, different jobs, each claiming more than two thirds, and more than the chain's percentage, of the commit power |
| ProcessProposal.AcceptedWasValidated | app/abci.go:454-567 | with a keeper every accepted injected transaction had its seal validated, without one its job exists; a production build, or a chain that does not allow simulation, accepts nothing without keeper and cache |
| ProcessProposal.AcceptedQuorumsMeet | app/abci.go:497-504 | true claims in two accepted proposals on one commit overlap in more than a third of its power |
| ProcessProposal.RestartSafe | app/abci.go:569-634 | what is accepted with any cache is accepted with the empty cache of a restart, whose verdict is that of chain state alone |
| ProcessProposal.AcceptedMatchesCache | app/abci.go:608-633 | with a populated cache, accepted transactions are exactly the recomputed results, backed by more than two thirds of the power |
| CacheSplit.VerdictsAgreeIff | app/abci.go:572-634 | two caches lead to the same verdict for every application and every list of transactions exactly when neither has an entry for the commit or both attach the same extensions |
| CacheSplit.PartialCacheRejects | app/abci.go:608-623 | for every keeper that accepts the seal and every request that passes verification for one of three validators: the cache the handler then holds rejects a proposal that the chain state, and the same node after a restart, accept |
| CacheSplit.AcceptedWasVerified | app/abci.go:583-634 | in every run of the handler, a production node that has an entry for the commit and accepts an injected transaction has itself verified extensions for that height from more than two thirds of the commit power |
| RateLimiter.TokenBucket.constructor | app/ratelimit.go:161-168 | a new bucket is full |
| RateLimiter.TokenBucket.Take | app/ratelimit.go:392-409 | refill up to capacity, then take if there is enough |
| RateLimiter.FindStalest | app/ratelimit.go:343-358 | a key with the oldest last use, for every iteration order |
| RateLimiter.GetOrCreateBucket | app/ratelimit.go:254-285 | the existing bucket, or a new full one after evicting a stalest one from a full map |
| RateLimiter.RateLimiter.constructor | app/ratelimit.go:135-158 | a full global bucket, full endpoint buckets and empty maps |
| RateLimiter.RateLimiter.Allow | app/ratelimit.go:172-209 | the checks in order, as the state machine takes them, with a legitimate eviction; `GrantedIff` and `ChargeLaw` say what that grants and costs |
| RateLimiter.RateLimiter.AllowJobSubmission | app/ratelimit.go:213-247 | the four checks in order, as the state machine takes them, with legitimate evictions |
| RateLimiter.RateLimiter.Cleanup | app/ratelimit.go:366-388 | exactly the buckets idle for more than twice the interval go; the others, and the shared limits, stay as they were |
| GrantLaw.GrantedIff | app/ratelimit.go:172-247 | a request is granted exactly when every limit it is subject to has a token; an empty address, and an endpoint without a limit, subject it to none |
| GrantLaw.ChargeLaw | app/ratelimit.go:172-247 | each limit is charged one token by exactly the requests subject to it that pass all earlier checks and find a token there, also if a later check denies them; all other levels stay |
| GrantLaw.FreshIsFull | app/ratelimit.go:135-168 | a fresh limiter has every limit at its burst |
| GrantLaw.RefillLaw | app/ratelimit.go:392-409 | between calls every limit refills at its rate, up to its burst |
| CleanupInvisible.RequestSim | app/ratelimit.go:172-303 | a request gets one answer from a limiter and from the same limiter without some refilled buckets, and they stay so related |
| CleanupInvisible.CleanupIsInvisible | app/ratelimit.go:320-409 | in every run a limiter cleaned at arbitrary times answers like one never cleaned, if idle buckets refill in time and the keys fit |
| CleanupExact.UnobservableIffRecovers | app/ratelimit.go:366-409 | where the shared limits leave room for two bursts, cleanup is unobservable exactly when drained address buckets and drained job buckets refill within the stale time |
| CleanupExact.UnobservableWhateverShared | app/ratelimit.go:366-409 | for every configuration, cleanup is unobservable under all global and endpoint limits exactly when both kinds of bucket refill within the stale time |
| RateWindow.GrantsPaidFor | app/ratelimit.go:392-409 | grants never exceed the tokens at hand plus those that flow in |
| RateWindow.WindowBound | app/ratelimit.go:172-247 | a limit grants at most burst plus rate times length in any window; for an address or its submissions, while the bucket is not evicted, nor cleaned up before it could refill |
| RateWindow.SharedWindowBound | app/ratelimit.go:172-247 | the global and endpoint limits keep the bound over all windows of all runs |
| RateWindow.WindowBoundWithCleanup | app/ratelimit.go:287-409 | per address and per submitter too the bound holds over all windows, cleanups included, if that limit's idle buckets refill in time and the keys fit |
| EvictionOrder.VictimUniqueIff | app/ratelimit.go:341-363 | the eviction has one possible victim exactly when no two buckets share the oldest last use |
| EvictionOrder.StrictRunsDetermined | app/ratelimit.go:172-363 | when every call comes later than the one before, the calls alone determine all answers and the state, whichever legitimate victims are picked |
| EvictionOrder.TieObserved | app/ratelimit.go:341-363 | two runs of the same calls at one instant, both with legitimate victims, give different answers |
| EvictionCost.EvictionBreaksBound | app/ratelimit.go:254-303 | for every configuration whose global burst covers one request, the table size and an address burst: requests at one instant, with legitimate evictions, grant an address one more than its burst |
| EvictionCost.BoundedWhateverSharedIff | app/ratelimit.go:254-409 | for every configuration, with evictions the address bound holds under all global and endpoint limits exactly when the address burst is 0 |

## Left out

- The canonical branch of PrepareProposal (keeper aggregation and seal creation) and the encrypted mempool bridge.
- Address derivation and job scheduling in ExtendVote; its job results and time budget are inputs.
- The rules of `ComputeVerification.validate`, `validateAtWithWindow` and the TEE quote schemas: a parameter of `VerifyVote.Handle`.
- Panic recovery, liveness recording, logging and metrics.
- Texts of errors and of audit issues; an issue is its index, job and code.
- A nil and an empty slice are not told apart, and neither are time zones.
- BLS aggregation, post-quantum keys, the HSM, the circuit breaker and shutdown.
- `VoteExtensionVerifier` and its key cache; key history and rotation of the signer.
- Locks and interleavings inside one limiter call, more than one clock reading per call, and floating-point rounding.
- UnobservableIffRecovers: for one fixed set of shared limits only where they leave room for two bursts, since tighter ones can mask the difference; `UnobservableWhateverShared` has no such condition.
- PartialCacheRejects: one commit and one codec, for all keepers, chains, cache sizes and passing requests.
- ConsensusIff: for non-negative powers whose product with the threshold does not overflow, and extensions with at most one successful entry per job; `CountedOnceIff` is about the others.
- ChargeLaw: for a request that does not evict the bucket of the limit in question; what an eviction costs is in `EvictionBreaksBound`.
- PreimageDetermines: for fields and lists under 2^32, the range of the length fields.
- SigningBytesDetermine: for ChainID, address and nonce under 2^16 bytes, the range of the length fields.
