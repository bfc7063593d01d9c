# Anonymous voting: a Dafny model and its proofs

This project models the decision logic of the repository's anonymous-vote crypto core and proves what it is for:

* **The composed vote proof** (`Vote`, `VoteTheorems`, `VoteBinding`). A BBS+ proof of knowledge with the voter secret hidden and a
  discrete-log proof of the nullifier `N = m0 * H_e` share one blinding, one Fiat-Shamir challenge and one response.
  An honest proof verifies exactly when its credential is valid; two accepted answers to different challenges give up a
  credential whose secret is the discrete logarithm of `N`; and an eligibility proof accepted twice, in whatever
  contexts and with whatever nullifier attached, was accepted under one issuer key and for one nullifier, chain,
  election and signal, or its statements are the identity, or two inputs with one hash are exhibited. The challenge
  binds every commitment and every revealed claim; the nullifier binds the voter secret and the election.
* **The proofs underneath** (`PrimeGroup`, `Schnorr`, `BbsPlus`, `HonestExtraction`). The vendored BBS+ and Schnorr
  sources are modelled equation by equation over an arbitrary abelian group of prime order, with completeness and
  knowledge soundness; run against an honest prover, the extractor gives back that prover's own credential.
* **Selective disclosure and ballot binding** (`SelectiveDisclosure`, `RevealSet`).
* **Three canonical wire formats** (`Reading`, `Revealed`, `SelectiveCodec`, `VoteCodec`). The mutable cursor refines a
  pure suffix parser; the accepted language of each decoder is the image of its encoder on well-formed values.
* **Framing** (`Bytes`, `Framing`, `ChallengeInputs`). Transcripts, hash preimages and the contributions to a challenge
  determine their fields, and no two kinds overlap.
* **The shared parameter cache** (`ParamsCache`), as interleaved steps of any number of threads with panics and poisoning.
* **The boundary and the smaller loops**: the C export that gates votes by key (`Ffi`), the tally (`Tally`), the
  WebAuthn verifier (`WebAuthn`) and the header test's comment stripper (`CommentStripper`).

## How to read it

Code that changes state step by step is a method with loop invariants, or a class, proved equal to a specification
function; the theorems are lemmas about those functions. `Crypto.Library` holds the operations the crate calls but does
not implement (serialisation, SHA-256, the random oracle, hash-to-curve, parameter generation) as arbitrary functions.
Its predicates (`PointsCanonical`, `KeysRoundTrip`, `ProofsRoundTrip`, `ScalarsInjective`, `FixedWidths`, `HashShapes`,
`ParamsShape`) are the contracts the theorems use, each theorem naming those it needs. No hash is assumed injective: binding results
read "the inputs are equal, or here are two inputs with one hash". `LibraryWitness` gives a library over
the group of order three in which all the contracts hold (`LawfulLibraryExists`), a prover succeeds (`ProverSucceeds`)
and, rewound to a second oracle, forks (`ForkExists`): the hypotheses of the theorems can be met, all at once.

Modelling decisions:

* A group is a record of operations with the group laws and a prime order that annihilates every element. An issuer key
  is represented by its exponent `x`, so the pairing equation `e(A', w) = e(Abar, g2)` becomes `x * A' = Abar`.
* Random draws are arguments (`Coins`, `VoteCoins`), so a statement for all coins is a statement for every run. The
  draw `r1` is non-zero because the library redraws it until it is (vendor/bbs_plus/src/proof.rs:179-182), and there is
  one blinding for each message.
* Prover and verifier call parameter generation directly; `ParamsCache.CacheIsInvisible` is why that is the same as
  calling `params_for`.
* `u32` length prefixes come from `len as u32` casts. The model keeps the cast: an encoder writes the low 32 bits of a
  longer length. Round trips are therefore stated as "exactly when every field fits". In a transcript the last field
  (nonce, ballot binding) needs no bound; for every other field the bound is exact, as
  `Framing.OverlongContributionCollides`, `OverlongKeyCollides`, `OverlongBbsCollides` and `OverlongDlCollides` show.
  The code's own documentation, which calls decoding the inverse of encoding without a bound, holds below it.
* The bound of a `u64` prefix is the length every Rust slice has (`Framing.Addressable`).
* Two claims are one scalar when they are equal, when they collide under SHA-256, or when their digests differ by a
  multiple of the order, which 256-bit digests and a 255-bit order allow. Results on claims name the last two cases
  (`Crypto.Confusable`).
* Inside a BBS+ contribution the revealed scalars stand unframed between the generators. With one set of revealed
  indices that determines everything; across different sets the only way to equal contributions is a revealed scalar
  encoded like the beginning of the next generator (`ChallengeInputs.Clash`), and results across sets name it.
* The two texts of a failed deserialisation are one error value; constant-time equality is equality.

## Model

| member | source | states |
|---|---|---|
| VoteTheorems.OneProofOneContext | src/voting_snark.rs:329-396 | An eligibility proof accepted twice, in any two contexts and with any nullifiers and discrete-log proofs attached, was accepted under one issuer key; and for one nullifier, chain id, election and signal, unless its BBS+ statements are the identity or two inputs with one random-oracle value or one SHA-256 digest are exhibited. |
| VoteTheorems.OneProofPerElection | src/voting_snark.rs:329-396 | Within one election the exception for identity statements drops out: a proof accepted twice was accepted under one issuer key, and for one chain id and signal or a collision is exhibited. |
| VoteTheorems.OneProofOneIssuer | src/voting_snark.rs:341-382 | One eligibility proof is accepted under one issuer key only, with no exception. |
| VoteTheorems.DlPartDetermined | src/voting_snark.rs:381-395 | On equal transcripts the attached discrete-log proof is determined too. |
| VoteBinding.TranscriptDeterminesStatement | src/voting_snark.rs:366-379 | Any two opened proofs with equal transcripts have one message count, issuer key, set of BBS+ commitments, nullifier, generator, discrete-log commitment and ballot binding, and the same revealed scalars or a named clash. |
| VoteBinding.OneChallengeOneStatement | src/voting_snark.rs:434-463 | With one challenge, all of that agrees or two transcripts with one random-oracle value are exhibited. |
| VoteBinding.OneProofOneRevealedList | src/voting_snark.rs:347-382 | Under one accepted BBS+ proof the revealed claims cannot be exchanged, whatever else is attached: same indices and equal or confusable claims, or the first statement is the identity, or a clash or random-oracle collision is exhibited. |
| VoteBinding.OpenGuards | src/voting_snark.rs:336-379 | Whatever gets past the guards has 1 to 64 messages, a nullifier that is not the identity, a challenge that is not zero, and distinct revealed indices in range without the voter secret. |
| VoteBinding.VerifyVoteExactly | src/voting_snark.rs:315-326 | On all bytes: accepted exactly when they encode a well-formed proof that verifies; anything else is refused. |
| VoteBinding.VerifyVotePrefixFree | src/voting_snark.rs:315-326 | Accepted bytes with anything appended are refused in every context. |
| VoteTheorems.WitnessEquality | src/voting_snark.rs:381-394 | For two accepted answers to different challenges on the same commitments, the scalar extracted from the discrete-log proof is the one extracted from message slot 0, and the nullifier is that multiple of H_e. |
| VoteTheorems.VoteForkYieldsCredential | src/voting_snark.rs:381-395 | The same fork yields messages and a signature tuple satisfying the BBS+ equation, agreeing with everything revealed, with slot 0 the discrete logarithm of the nullifier. |
| VoteTheorems.AcceptedProofsFork | src/voting_snark.rs:329-396 | Any two accepted proofs that agree up to the responses and answer different challenges, under one random oracle or under two, satisfy the hypotheses of the extraction theorems. |
| VoteTheorems.ExtractedSecretsCompare | src/voting_snark.rs:381-394 | Against any prover: in one election two forks have the same nullifier exactly when the credentials extracted from them hold the same voter secret. |
| VoteTheorems.RewoundProverForks | src/voting_snark.rs:178-279 | Every honest prover whose proof verifies, rewound to an oracle with another challenge, satisfies the hypotheses of the extraction theorems. |
| VoteTheorems.RewoundProverGivesUpItsSecret | src/voting_snark.rs:178-279 | What is then extracted from slot 0 is that prover's own voter secret. |
| VoteTheorems.ProveVoteSucceeds | src/voting_snark.rs:178-279 | The prover succeeds exactly when the counts and reveal list are in range, index 0 is not revealed, signature and key decode, and neither the generator nor the voter secret is zero, but for a zero challenge. |
| VoteTheorems.HonestVoteVerifies | src/voting_snark.rs:178-279 | For all claims, reveal lists, contexts and randomness, a proof that the prover returns verifies in its context exactly when the credential's signature is valid under the issuer key named. |
| VoteTheorems.HonestVoteEncodes | src/voting_snark.rs:282-327 | What the prover returns survives the wire exactly when its byte fields fit their u32 prefixes; the bytes then verify exactly when the proof does. |
| VoteTheorems.VerifierOpensHonest | src/voting_snark.rs:304-372 | The verifier decodes the prover's commitments and rebuilds the same revealed map, generator, transcript and challenge. |
| VoteTheorems.SharedResponse | src/voting_snark.rs:214-240 | The shared blinding makes the BBS+ response the verifier looks up for message 0 equal to the discrete-log response. |
| VoteTheorems.DecodedPassesIndexChecks | src/voting_snark.rs:349-360 | A decoded proof never fails the verifier's count, index or duplicate checks, and its voter secret is hidden. |
| VoteTheorems.NullifierOfHonestVote | src/voting_snark.rs:214-221 | The nullifier of a returned proof is the voter secret times the election's generator and not the identity, whatever the chain, signal, reveal list, other claims and randomness. |
| VoteTheorems.NullifiersCompare | src/voting_snark.rs:214-221 | In one election two honest nullifiers are equal exactly when the voter secrets are the same field element. |
| VoteBinding.NullifiersCompareSecrets | src/voting_snark.rs:212-217 | In one election two honest nullifiers are equal exactly when the bytes of the voter secrets are equal or confusable. |
| VoteBinding.OneGeneratorOneElection | src/voting_snark.rs:50-56 | Elections with one generator are equal, or their external nullifiers collide under SHA-256 or under hash-to-curve. |
| VoteBinding.OneNullifierOneElection | src/voting_snark.rs:216-217 | One voter secret with one nullifier in two contexts means one election, or such a collision. |
| VoteBinding.OneExtractedSecretOneElection | src/voting_snark.rs:381-394 | The same against any prover, for the secrets extracted from forks. |
| Vote.BlindedMulIsTimes | src/voting_snark.rs:74-84 | The masked multiplication equals the direct one for every scalar and mask, also when their sum wraps the modulus. |
| Vote.VerifyInner | src/voting_snark.rs:329-396 | The verifier's guards, deserialisations, loop and checks, in order, compute the specified verdict and error. |
| Vote.BuildTranscript | src/voting_snark.rs:400-430 | The appends lay out the framed transcript with the ballot binding last. |
| BbsPlus.HonestProof | vendor/bbs_plus/src/proof.rs:159-292 | For every randomness, revealed set and challenge the proof an honest prover makes verifies exactly when its signature does. |
| BbsPlus.ForkYieldsSignature | vendor/bbs_plus/src/proof.rs:544-611 | Knowledge soundness: two accepted answers on the same commitments yield all messages, agreeing with the revealed ones, and a tuple satisfying the signature equation; it is a valid signature exactly when the extracted multiplier of d is not zero, and otherwise the generators sum to the identity. |
| HonestExtraction.HonestAnswersFork | vendor/bbs_plus/src/proof.rs:273-292 | An honest prover that answers two different challenges from one set of commitments meets the extraction hypotheses exactly when its signature is valid. |
| HonestExtraction.MessagesRecovered | vendor/bbs_plus/src/proof.rs:159-292 | The messages extracted from those two answers are the prover's own, revealed and hidden. |
| HonestExtraction.SignatureRecovered | vendor/bbs_plus/src/proof.rs:159-292 | The signature extracted from them is the prover's own: the same point A, and the same e and s modulo the order. |
| BbsPlus.AcceptedAgain | vendor/bbs_plus/src/proof.rs:478-506 | A proof accepted for one challenge is accepted for another exactly when the challenges are one field element or both statements are the identity. |
| BbsPlus.OneProofOneKey | vendor/bbs_plus/src/proof.rs:494-504 | The pairing equation alone ties a proof to one issuer key, whatever is revealed and challenged. |
| BbsPlus.FirstAnswersOneChallenge | vendor/bbs_plus/src/proof.rs:553-561 | The first statement alone ties a proof to one challenge, whatever is revealed, unless it is the identity. |
| HonestExtraction.EveryAnswerPossible | vendor/bbs_plus/src/proof.rs:204-244 | For every credential and challenge, every combination of responses is the answer for some choice of blindings with A', Abar and d unchanged: responses alone say nothing about the witnesses. |
| BbsPlus.ExtractedAt | vendor/bbs_plus/src/proof.rs:447-461 | The response looked up for a hidden message exists, and is the one that message's extracted value comes from. |
| BbsPlus.ResponseIndex | vendor/dock_crypto_utils/src/signature.rs:101-117 | The adjusted index is absent exactly for revealed messages, and otherwise the number of hidden messages before this one. |
| BbsPlus.CommitmentSplits | vendor/bbs_plus/src/setup.rs:153-163 | The signed commitment is the revealed part plus the hidden part plus s times h0 plus g1, for every revealed set. |
| Schnorr.HonestOpens | vendor/schnorr_pok/src/pok_generalized_pedersen.rs:96-118 | An honest response opens the statement exactly when the witnesses do or the challenge is zero. |
| Schnorr.ExtractOpens | vendor/schnorr_pok/src/pok_generalized_pedersen.rs:141-161 | Special soundness for any number of bases: two openings under different challenges give a witness of the statement. |
| Schnorr.ExtractHonest | vendor/schnorr_pok/src/pok_generalized_pedersen.rs:102-118 | What is extracted from two honest responses is the witness they were made with. |
| Schnorr.SameResponsesSameChallenge | vendor/schnorr_pok/src/pok_generalized_pedersen.rs:141-161 | One response answers two challenges exactly when they are congruent or the statement is the identity. |
| Schnorr.ValidOpens | vendor/schnorr_pok/src/pok_generalized_pedersen.rs:141-161 | The library's multi-base check holds exactly when the responses open commitment plus challenge times statement. |
| Schnorr.DlOpens | vendor/schnorr_pok/src/discrete_log.rs:161-165 | The one-base check is the same equation. |
| ChallengeInputs.BbsContributionBinds | vendor/bbs_plus/src/proof.rs:328-353 | Equal BBS+ contributions for equally many generators have equal A', Abar, d, t1, t2, h0 and g1, and equal generators and revealed scalars at every index or a named clash; with the same indices revealed, without exception. |
| ChallengeInputs.ContributionsDetermine | vendor/bbs_plus/src/proof.rs:345-350 | The induction behind it, index by index. |
| ChallengeInputs.BbsContributionIsShort | vendor/bbs_plus/src/proof.rs:328-353 | A contribution for at most 64 generators always fits its 32-bit prefix. |
| Crypto.ClaimsCompare | src/bbs.rs:193-195 | Two claims are one field element exactly when they are equal, collide under SHA-256, or have different digests congruent modulo the order. |
| Crypto.ModularClashIsFarApart | src/bbs.rs:193-195 | Congruent different digests are at least the order apart. |
| Bytes.LittleValueReverses | src/bbs.rs:193-195 | The little-endian value of a digest is the big-endian value of its reverse. |
| Bytes.LittleValueInjective | src/bbs.rs:193-195 | It tells digests of one length apart. |
| ChallengeInputs.DlContributionInjective | vendor/schnorr_pok/src/discrete_log.rs:138-147 | The discrete-log contribution has a fixed length and determines its three points. |
| Schnorr.PedersenOpens | vendor/schnorr_pok/src/discrete_log.rs:248-254 | The two-base check is the same equation. |
| SelectiveDisclosure.DerivedProofVerifies | src/bbs.rs:300-393 | A returned selective proof verifies under an issuer key and its nonce exactly when the credential's signature is valid under that key. |
| SelectiveDisclosure.DerivedProofEncodes | src/bbs.rs:300-357 | A returned proof lists exactly the reveal set, increasing, with the right claims, and survives the wire exactly when its byte fields fit. |
| SelectiveDisclosure.DeriveProofSucceeds | src/bbs.rs:300-325 | Derivation succeeds exactly for 1 to 64 claims, a decodable signature and reveal indices in range. |
| SelectiveDisclosure.DerivedBytesVerify | src/bbs.rs:165-170 | The encoding of a derived proof is accepted exactly when the credential is valid, provided its byte fields fit. |
| SelectiveDisclosure.VerifyProofBytesExactly | src/bbs.rs:165-170 | On all bytes: accepted exactly when they encode a well-formed proof that verifies; anything else is refused. |
| SelectiveDisclosure.OpenGuards | src/bbs.rs:359-382 | Whatever gets past the guards has 1 to 64 messages, no more revealed claims than that, and distinct revealed indices in range, on proofs decoded or built by hand. |
| SelectiveDisclosure.TranscriptDeterminesStatement | src/bbs.rs:384-392 | For credentials of one size, equal transcripts have one nonce, one set of commitments and the same revealed scalars or a named clash. |
| SelectiveDisclosure.OneProofOneRevealedList | src/bbs.rs:359-393 | Under one accepted BBS+ proof the revealed claims cannot be exchanged, with the exceptions named as for votes. |
| SelectiveDisclosure.DecodedPassesIndexChecks | src/bbs.rs:359-382 | A decoded proof never fails the verifier's count, index or duplicate checks. |
| SelectiveDisclosure.AcceptedUnderBothNonces | src/bbs.rs:359-393 | A proof accepted under one nonce is accepted under another exactly when the challenges agree or its statements are the identity. |
| SelectiveDisclosure.BoundProofOneBallot | src/semaphore.rs:35-44 | A proof accepted for two ballots, under two keys, was accepted under one issuer key; and for the same election, nullifier and signal, or its statements are the identity, or two inputs with one hash are exhibited. |
| SelectiveDisclosure.BoundProofVerifies | src/semaphore.rs:35-44 | A proof derived under the ballot's nonce is accepted for that ballot exactly when the credential is valid. |
| SelectiveDisclosure.OneProofOneIssuer | src/bbs.rs:359-393 | A selective proof is accepted under one issuer key only, whatever the nonces, with no exception. |
| SelectiveDisclosure.OneProofOneNonce | src/bbs.rs:359-393 | A proof accepted under two nonces of any length: they are equal, or its statements are the identity, or two inputs with one random-oracle value are exhibited. |
| SelectiveDisclosure.VerifySelective | src/bbs.rs:359-393 | The verifier's guards and loop compute the specified verdict. |
| RevealSet.RevealedClaimsExact | src/bbs.rs:319-351 | For any reveal set the emitted list is exactly that set, strictly increasing, with the right claims. |
| RevealSet.CollectMatchesProver | src/bbs.rs:371-382 | From the emitted list the verifier rebuilds exactly the index-to-scalar map the prover hashed. |
| RevealSet.CollectDisciplined | src/voting_snark.rs:349-360 | On a list with the decoders' index discipline the verifiers' index and duplicate checks never fail. |
| RevealSet.CollectExactly | src/bbs.rs:371-382 | On any list: the loop succeeds exactly when the indices are distinct and in range, and then builds the map the list denotes. |
| RevealSet.OneMapOneClaims | src/bbs.rs:371-382 | Lists that denote one map reveal the same indices and equal or confusable claims. |
| RevealSet.EmittedIsDisciplined | src/voting_snark.rs:267-270 | The emitted list has the decoder's index discipline exactly when the revealed claims fit their prefixes. |
| RevealSet.ClaimsPartition | src/bbs.rs:319-332 | Revealed and hidden claims, with their indices, are together all claims, and each claim is on the one side or the other as the reveal set says. |
| RevealSet.KeepPartitions | src/bbs.rs:325-331 | Splitting a list by a set of indices loses nothing and repeats nothing. |
| RevealSet.CollectIgnoresOracle | src/voting_snark.rs:349-360 | The map the verifiers rebuild does not depend on the random oracle. |
| RevealSet.BuildRevealed | src/bbs.rs:335-351 | The provers' passes build the specified map and list. |
| RevealSet.CollectLoop | src/bbs.rs:371-382 | The verifiers' loop computes the specified map or error, in both verifiers. |
| VoteCodec.RoundTrip | src/voting_snark.rs:110-174 | Decoding returns what was encoded exactly for well-formed proofs. |
| VoteCodec.Canonical | src/voting_snark.rs:125-174 | Whatever decodes is well-formed and encodes back to the same bytes. |
| VoteCodec.AcceptsExactlyTheImage | src/voting_snark.rs:110-174 | Bytes decode exactly when they encode some well-formed proof. |
| VoteCodec.DecodeInjective | src/voting_snark.rs:125-174 | Distinct accepted byte strings decode to distinct proofs. |
| VoteCodec.PrefixFree | src/voting_snark.rs:163-165 | Anything appended to an accepted string is reported as trailing bytes. |
| VoteCodec.RevealedAgrees | src/voting_snark.rs:137-166 | The tail of an accepted proof is a list that the bbs-2023 decoder reads the same way. |
| VoteCodec.FromBytes | src/voting_snark.rs:125-174 | The cursor-driven decoder computes the specified result or error on every input, in bounds. |
| VoteCodec.ToBytes | src/voting_snark.rs:110-122 | The appending encoder computes the specified encoding. |
| VoteCodec.PutBytes | src/voting_snark.rs:466-469 | One framed field is appended and nothing else changes. |
| SelectiveCodec.RoundTrip | src/bbs.rs:71-124 | Decoding returns what was encoded exactly for well-formed proofs. |
| SelectiveCodec.Canonical | src/bbs.rs:86-124 | Whatever decodes is well-formed and encodes back to the same bytes. |
| SelectiveCodec.AcceptsExactlyTheImage | src/bbs.rs:71-124 | Bytes decode exactly when they encode some well-formed proof. |
| SelectiveCodec.PrefixFree | src/bbs.rs:116-118 | Anything appended to an accepted string is reported as trailing bytes. |
| SelectiveCodec.RevealedAgrees | src/bbs.rs:93-119 | The tail of an accepted proof is a list that the bbs-2023 decoder reads the same way. |
| SelectiveCodec.TailCountTestIsRedundant | src/bbs.rs:93-98 | The explicit revealed-count test never changes what either decoder accepts. |
| SelectiveCodec.FromBytes | src/bbs.rs:86-124 | The cursor-driven decoder computes the specified result or error on every input, in bounds. |
| SelectiveCodec.ToBytes | src/bbs.rs:71-83 | The appending encoder computes the specified encoding. |
| Revealed.DecodeAfterEncode | src/bbs.rs:98-115 | The entry loop undoes encoding on every admissible list, leaving what follows it. |
| Revealed.EncodeAfterDecode | src/bbs.rs:98-115 | Whatever the entry loop reads is admissible and encodes back to the bytes read. |
| Revealed.AdmissibleIsDisciplined | src/bbs.rs:100-113 | The checks made entry by entry hold exactly when the whole list is strictly increasing, in range, framable and, for votes, without index 0. |
| Revealed.CountTestIsRedundant | src/voting_snark.rs:137-163 | By pigeonhole, more entries than the message count can never pass the index checks. |
| Revealed.AnyIndexAgrees | src/ffi.rs:140-173 | A list accepted under a stricter index rule is read the same way by the unbounded decoder. |
| Revealed.ReadEntries | src/bbs.rs:98-115 | The mutable-cursor loop refines the pure list parser: same entries, same error, same rest. |
| Revealed.WriteEntries | src/bbs.rs:77-81 | The loop appends exactly the encoding of the list. |
| Revealed.RevealedRoundTrip | src/ffi.rs:140-173 | The bbs-2023 decoder returns what was encoded exactly for lists of at most 64 framable, strictly increasing entries. |
| Revealed.RevealedCanonical | src/ffi.rs:140-173 | An accepted bbs-2023 list is well-formed and has one encoding. |
| Revealed.RevealedPrefixFree | src/ffi.rs:169-171 | No accepted bbs-2023 list is a proper prefix of another. |
| Revealed.EntryAt | src/ffi.rs:153-167 | One turn of the bbs-2023 loop reads one entry in bounds or fails, with every sum overflow-checked. |
| Revealed.DecodeRevealedLoop | src/ffi.rs:140-173 | The position-keeping loop computes the specified list or fails. |
| Reading.Reader.U32 | src/bbs.rs:134-148 | The cursor reads what the pure parser reads, in bounds without overflow, and stays put on failure. |
| Reading.Reader.TakeFrame | src/bbs.rs:149-161 | The same for a framed field; on failure at most the length has been consumed. |
| Reading.TakeU32Undoes | src/bbs.rs:134-148 | Reading undoes writing for every 32-bit integer and every rest. |
| Reading.TakeBytesUndoes | src/bbs.rs:149-161 | Reading undoes framing for every field that fits its prefix and every rest. |
| Bytes.FrameSplits | src/voting_snark.rs:466-469 | A framed field whose length fits its prefix can be split off in one way only. |
| Bytes.OverlongFrameCollides | src/voting_snark.rs:466-469 | Every field too long for its prefix collides with a shorter one in some pair of adjacent frames. |
| Framing.VoteTranscriptInjective | src/voting_snark.rs:419-430 | Equal vote transcripts have equal message count, issuer key, both contributions and binding, for keys and contributions below 2^32 bytes and bindings of any length. |
| Framing.VoteTranscriptBinds | src/voting_snark.rs:419-430 | With equal count and BBS+ contribution, and discrete-log contributions and bindings of equal lengths, key, discrete-log contribution and binding are determined without any length bound. |
| Framing.OverlongKeyCollides | src/voting_snark.rs:419-430 | Every issuer-key field of 2^32 bytes or more shares its transcript with a different one. |
| Framing.OverlongBbsCollides | src/voting_snark.rs:419-430 | Every BBS+ contribution of 2^32 bytes or more shares its transcript with a different one. |
| Framing.OverlongDlCollides | src/voting_snark.rs:419-430 | Every discrete-log contribution of 2^32 bytes or more shares its transcript with a different one. |
| Framing.ProofTranscriptInjective | src/bbs.rs:249-256 | Equal selective-proof transcripts have equal contribution and nonce, for contributions below 2^32 bytes and nonces of any length. |
| Framing.OverlongContributionCollides | src/bbs.rs:249-262 | Every contribution of 2^32 bytes or more shares its transcript with a different one. |
| Framing.BindPreimageInjective | src/voting_snark.rs:59-71 | The ballot-binding preimage determines chain id, election, nullifier and signal. |
| Framing.ExternalNullifierPreimageInjective | src/semaphore.rs:9-15 | The external-nullifier preimage determines the election. |
| Framing.NullifierPreimageInjective | src/voting.rs:12-19 | The nullifier preimage determines secret and topic. |
| Framing.BindNoncePreimageInjective | src/semaphore.rs:23-32 | The nonce preimage determines election, signal and nullifier, although the nullifier has no prefix. |
| Framing.PreimagesDisjoint | src/semaphore.rs:9-32 | The four SHA-256 preimages are pairwise different for all inputs. |
| Framing.TranscriptsDisjoint | src/bbs.rs:249-256 | No selective-proof transcript is ever a vote transcript, for all inputs. |
| Framing.BindContext | src/voting_snark.rs:59-71 | The hasher is fed exactly the ballot-binding preimage. |
| Framing.ExternalNullifier | src/semaphore.rs:9-15 | The hasher is fed exactly the external-nullifier preimage. |
| Framing.BindNonce | src/semaphore.rs:23-32 | The hasher is fed exactly the nonce preimage. |
| Framing.Nullifier | src/semaphore.rs:18-20 | The external nullifier is hashed as the topic of the nullifier. |
| Framing.OneNullifierOneVoter | src/semaphore.rs:18-20 | One semaphore nullifier belongs to one secret in one election, or one of its two hashes collides. |
| Framing.ComputeNullifier | src/voting.rs:12-19 | The hasher is fed exactly the nullifier preimage. |
| ParamsCache.CacheIsInvisible | src/bbs.rs:207-227 | In every interleaving, with panics and poisoning anywhere, each call that returns returns a fresh derivation; every cached entry is one; nothing above 64 is cached. |
| ParamsCache.RunFaithful | src/bbs.rs:213-227 | The invariant behind it: every run from a faithful state ends in one. |
| ParamsCache.CachedCountIsNotDerivedAgain | src/bbs.rs:217-221 | Once a count is cached and the lock stays unpoisoned, only calls that had already missed can still derive it, in every interleaving. |
| ParamsCache.WholeCall | src/bbs.rs:213-227 | From any state an undisturbed call runs to completion with one stated effect on cache, result and derivation count. |
| ParamsCache.SequenceIsARun | src/bbs.rs:213-227 | Undisturbed calls made one after another are one of the interleavings. |
| ParamsCache.EachCountDerivedOnce | src/bbs.rs:213-227 | Such a run derives each requested in-range count exactly once. |
| ParamsCache.OutOfRangeDerivedEveryTime | src/bbs.rs:214-216 | Such a run derives a count above 64 once for every call that asks for it. |
| ParamsCache.PoisonedDerivesEveryTime | src/bbs.rs:217-225 | With a poisoned lock every call derives, and nothing is stored. |
| ParamsCache.Cache.ParamsFor | src/bbs.rs:213-227 | The code run without interruption is exactly one whole call of the interleaved model, poisoned or not. |
| ParamsCache.Cache.DeriveParams | src/bbs.rs:198-204 | Derivation returns fresh parameters and counts itself. |
| Ffi.VerifyVoteV1 | src/ffi.rs:293-322 | The export returns 1 exactly for a decodable proof that verifies and whose own nullifier encodes to the supplied 48-byte key. |
| Ffi.AcceptedExactly | src/ffi.rs:303-321 | A complete call is accepted exactly when the verifier accepts its bytes in its context and its key is the proof's own nullifier. |
| Ffi.DistinctKeysAreDistinctPoints | src/ffi.rs:303-321 | Over any run of calls, the distinct accepted keys are as many as the distinct accepted nullifier points. |
| Ffi.OneVoterOneKey | src/ffi.rs:303-321 | Any run of honest calls with one voter secret in one election contributes at most one accepted key. |
| Ffi.DistinctKeysAreDistinctSecrets | src/ffi.rs:303-321 | Against any prover: over any run of forks in one election, the distinct keys are as many as the distinct voter secrets in the credentials extracted from them. |
| Ffi.HonestKey | src/voting_snark.rs:102-107 | The key of an accepted honest call is the encoding of the secret times the election's generator. |
| Ffi.HonestVoteIsAccepted | src/ffi.rs:293-322 | The encoded bytes of an honest proof, presented in its context under its key, are accepted exactly when the credential's signature is valid. |
| Ffi.ComputeNullifierInto | src/ffi.rs:222-236 | Either 32 digest bytes are written and the rest of the buffer is untouched, or nothing is. |
| Tally.DistinctNullifiers | src/voting.rs:30-36 | The loop counts the set of nullifiers. |
| Tally.VerifyThresholdTally | src/voting.rs:39-41 | The threshold test holds exactly when that many distinct nullifiers were recorded. |
| Tally.NullifiersGrow | src/voting.rs:30-36 | One more vote adds one, or nothing exactly when its nullifier was seen. |
| Tally.TallyIgnoresOrder | src/voting.rs:30-36 | Permuting the votes does not change the tally. |
| Tally.TallyIgnoresRepeats | src/voting.rs:30-36 | Repeating votes does not change the tally. |
| Tally.TallyCountsVoters | src/voting.rs:12-36 | On one topic the tally is at most the number of distinct secrets, and equal exactly when no two of their preimages collide. |
| WebAuthn.UrlSafeNoPadInjective | src/webauthn.rs:143-154 | The unpadded URL-safe encoding (section 5 of RFC 4648, unpadded as in section 3.2) tells all byte strings apart, across all lengths modulo three. |
| WebAuthn.EncodingVectors | src/webauthn.rs:143-154 | Vectors of section 10 of RFC 4648 without padding, and the two symbols of the URL-safe alphabet. |
| WebAuthn.AssertionBindsExpectations | src/webauthn.rs:112-180 | An assertion accepted twice was accepted for the same challenge and origin, and for the same relying party or two names with one digest. |
| WebAuthn.UserVerificationGate | src/webauthn.rs:166-171 | Requiring user verification accepts exactly the assertions accepted without it that carry the flag. |
| WebAuthn.LaidOutAssertion | src/webauthn.rs:79-180 | An assertion laid out field by field is accepted exactly when type, origin, challenge and relying party are as expected, it is not cross-origin, the user was present and verified where required, and the signature verifies over data and client-data digest; and then the counter and all four flags are the ones laid out. |
| WebAuthn.AcceptedIsLaidOut | src/webauthn.rs:95-106 | Every accepted assertion is laid out that way. |
| WebAuthn.OneSignatureOneAssertion | src/webauthn.rs:173-180 | Where one triple of key, message and signature verifies, any two accepted assertions carry it, with the same authenticatorData and the same client data or two with one digest. |
| WebAuthn.UnsignedIsRefused | src/webauthn.rs:173-180 | Without a signature that verifies over exactly this data, nothing is accepted. |
| WebAuthn.VerifyDetails | src/webauthn.rs:79-110 | Details are returned exactly on acceptance, report presence and any required verification, and their counter encodes back to bytes 33 to 36, read in bounds. |
| CommentStripper.StripComments | tests/c_abi_header_drift.rs:258-298 | The two-flag scanner computes the three-mode specification. |
| CommentStripper.NewlinesPreserved | tests/c_abi_header_drift.rs:258-298 | Every input, comments terminated or not, keeps its number of newlines. |
| CommentStripper.OutputHasNoOpener | tests/c_abi_header_drift.rs:258-298 | The output contains neither comment opener. |
| CommentStripper.StripIdempotent | tests/c_abi_header_drift.rs:258-298 | Stripping twice is stripping once. |
| CommentStripper.CodePassesThrough | tests/c_abi_header_drift.rs:294-295 | Text without comments passes through unchanged, with what follows scanned as before. |
| CommentStripper.BlockCommentBecomesSpace | tests/c_abi_header_drift.rs:263-274 | A terminated block comment becomes its newlines and one space. |
| CommentStripper.LineCommentDisappears | tests/c_abi_header_drift.rs:276-283 | A line comment disappears up to its newline. |

## Left out

- VoteTheorems.VerifierOpensHonest: the prover and `derive_proof` are functions with their random draws as arguments, not methods; only their revealed-list loop is modelled as a loop (`RevealSet.BuildRevealed`), and the map and the list, built in two passes by the code, are built in one.
- ParamsCache.Cache.ParamsFor: the class shows one thread; interleaving is modelled on values, as steps over an explicit state.
- WebAuthn.VerifyDetails: the JSON parser and the P-256 check with its low-S rule are arbitrary functions; the flag tests read bits arithmetically, and the guards are one conjunction where the code returns early.
- Curve, pairing, hash, random-number and serialisation internals, and hash-to-curve (RFC 9380): arbitrary functions with the contracts stated in `Crypto`.
- Serialisation failures, a failing hash-to-curve set-up and the library's own error values: they cannot be told apart here, or do not occur under the contracts; verification failures of the library are one error, as in the crate.
- Partial Schnorr responses and the randomised batch checkers of the vendored libraries: the crate never uses them. A BBS+ proof without a complete second response is rejected, as in the library.
- Key generation and signing: thin calls to library code; a credential is any signature that satisfies the BBS+ equation.
- Probability: extraction is stated for two given transcripts (special soundness); no forking argument and no bound on finding collisions.
- Zeroisation, constant-time comparison and timing: not functional properties. Unlinkability as a statement about probabilities; `HonestExtraction.EveryAnswerPossible` states what of it is functional.
- Raw pointers, null output buffers, panics caught at the C boundary and UTF-8 conversion: exports are modelled from already-formed optional byte strings.
- `src/bbs_2023.rs`, `src/did.rs`, `src/seed.rs`, `src/wasm.rs`, the Flutter bridge, headers, scripts, fuzz targets and fixed vectors: wrappers, plumbing or data.
