/** Selective disclosure of a BBS+ credential, and the semaphore layer that binds it to a ballot. */
module SelectiveDisclosure {
  import opened Wrappers
  import opened Bytes
  import opened PrimeGroup
  import opened Schnorr
  import opened BbsPlus
  import opened Crypto
  import opened ChallengeInputs
  import opened Revealed
  import opened RevealSet
  import opened Framing
  import opened SelectiveCodec

  function Contribution<P>(lib: Library<P>, bbs: BbsProof<P>, revealed: map<nat, int>, params: Params<P>): bytes {
    BbsContribution(lib, bbs.aPrime, bbs.aBar, bbs.d, bbs.first.t, bbs.t2, revealed, params)
  }

  function Challenge<P>(lib: Library<P>, contribution: bytes, nonce: bytes): int {
    lib.randomOracle(ProofTranscript(contribution, nonce))
  }

  predicate MessageCountInRange(messageCount: nat, revealedCount: nat) {
    messageCount != 0 && messageCount <= MAX_BBS_MESSAGES && revealedCount <= messageCount
  }

  /** `derive_proof`: its guards in order, then the proof. */
  function DeriveProof<P(==)>(lib: Library<P>, claims: seq<bytes>, signature: bytes, shown: seq<nat>, nonce: bytes,
                              coins: Coins): Result<SelectiveProof>
    requires Prime(lib.group.order) && coins.r1 % lib.group.order != 0 && |coins.message| == |claims|
  {
    var revealSet := set i | i in shown;
    if claims == [] then Err(InvalidInput("no claims"))
    else if |claims| > MAX_BBS_MESSAGES then Err(InvalidInput("message_count out of range"))
    else
      var sig :- OkOr(lib.deserSignature(signature), InvalidInput("bbs deserialize"));
      if exists i :: i in revealSet && i >= |claims| then Err(InvalidInput("reveal index out of range"))
      else Derive(lib, claims, sig, revealSet, nonce, coins)
  }

  function Derive<P(==)>(lib: Library<P>, claims: seq<bytes>, sig: Signature<P>, revealSet: set<nat>, nonce: bytes,
                         coins: Coins): Result<SelectiveProof>
    requires Prime(lib.group.order) && coins.r1 % lib.group.order != 0
    requires 0 < |claims| == |coins.message| <= MAX_BBS_MESSAGES
  {
    var g, params, messages := lib.group, lib.deriveParams(|claims|), Messages(lib, claims);
    var pok :- InitProof(g, params, sig, messages, revealSet, coins);
    var revealed := RevealedMessages(messages, revealSet);
    var contribution := BbsContribution(lib, pok.aPrime, pok.aBar, pok.d, pok.t1, pok.t2, revealed, params);
    var proof := FinishProof(g, pok, Challenge(lib, contribution, nonce));
    Ok(SelectiveProof(|claims|, lib.serBbs(proof), RevealedClaims(claims, revealSet)))
  }

  /** What the verifier has decoded before it checks the proof. */
  datatype Opened<P> = Opened(key: int, bbs: BbsProof<P>, revealed: map<nat, int>)

  function Open<P>(lib: Library<P>, p: SelectiveProof, issuerKey: bytes): Option<Opened<P>>
    requires lib.group.order > 0
  {
    var key, bbs := lib.deserKey(issuerKey), lib.deserBbs(p.proof);
    var revealed := Collect(lib, p.revealed, 0, p.messageCount, map[]);
    if !MessageCountInRange(p.messageCount, |p.revealed|) || key.None? || bbs.None? || revealed.Err? then None
    else Some(Opened(key.value, bbs.value, revealed.value))
  }

  predicate Accepts<P(==)>(lib: Library<P>, p: SelectiveProof, o: Opened<P>, nonce: bytes)
    requires lib.group.order > 0
  {
    var params := lib.deriveParams(p.messageCount);
    VerifyProof(lib.group, o.bbs, o.revealed, Challenge(lib, Contribution(lib, o.bbs, o.revealed, params), nonce),
                o.key, params)
  }

  /** Verification of a decoded proof. */
  predicate Verify<P(==)>(lib: Library<P>, p: SelectiveProof, issuerKey: bytes, nonce: bytes)
    requires lib.group.order > 0
  {
    Open(lib, p, issuerKey).Some? && Accepts(lib, p, Open(lib, p, issuerKey).value, nonce)
  }

  /** Verification of a serialised proof. */
  predicate VerifyProofBytes<P(==)>(lib: Library<P>, b: bytes, issuerKey: bytes, nonce: bytes)
    requires lib.group.order > 0
  {
    Decode(b).Ok? && Verify(lib, Decode(b).value, issuerKey, nonce)
  }

  /** `verify_proof`, with its loop over the revealed claims. */
  method VerifySelective<P(==)>(lib: Library<P>, p: SelectiveProof, issuerKey: bytes, nonce: bytes) returns (ok: bool)
    requires lib.group.order > 0
    ensures ok == Verify(lib, p, issuerKey, nonce)
  {
    if !MessageCountInRange(p.messageCount, |p.revealed|) {
      return false;
    }
    var params := lib.deriveParams(p.messageCount);
    var key := lib.deserKey(issuerKey);
    if key.None? {
      return false;
    }
    var bbs := lib.deserBbs(p.proof);
    if bbs.None? {
      return false;
    }
    var revealed := CollectLoop(lib, p.revealed, 0, p.messageCount);
    if revealed.Err? {
      return false;
    }
    var challenge := Challenge(lib, Contribution(lib, bbs.value, revealed.value, params), nonce);
    ok := VerifyProof(lib.group, bbs.value, revealed.value, challenge, key.value, params);
  }

  // ---------------------------------------------------------------- completeness

  lemma DerivedOpens<P(!new)>(lib: Library<P>, claims: seq<bytes>, sig: Signature<P>, revealSet: set<nat>, nonce: bytes,
                              coins: Coins, issuerKey: bytes, p: SelectiveProof)
    returns (pok: BbsProtocol<P>, o: Opened<P>)
    requires Lawful(lib) && coins.r1 % lib.group.order != 0 && 0 < |claims| == |coins.message| <= MAX_BBS_MESSAGES
    requires lib.deserKey(issuerKey).Some?
    requires Derive(lib, claims, sig, revealSet, nonce, coins) == Ok(p)
    ensures
      var g, params, messages := lib.group, lib.deriveParams(|claims|), Messages(lib, claims);
      && Open(lib, p, issuerKey) == Some(o) && p.messageCount == |claims|
      && InitProof(g, params, sig, messages, revealSet, coins) == Ok(pok)
      && o.key == lib.deserKey(issuerKey).value && o.revealed == RevealedMessages(messages, revealSet)
      && o.bbs == FinishProof(g, pok, Challenge(lib, Contribution(lib, o.bbs, o.revealed, params), nonce))
  {
    var g, params, messages := lib.group, lib.deriveParams(|claims|), Messages(lib, claims);
    pok := InitProof(g, params, sig, messages, revealSet, coins).value;
    var revealed := RevealedMessages(messages, revealSet);
    var c := Challenge(lib, BbsContribution(lib, pok.aPrime, pok.aBar, pok.d, pok.t1, pok.t2, revealed, params), nonce);
    o := Opened(lib.deserKey(issuerKey).value, FinishProof(g, pok, c), revealed);
    FinishedIsReadBack(lib, pok, c);
    CollectMatchesProver(lib, claims, revealSet, 0);
    EmittedCount(claims, revealSet);
  }

  lemma EmittedCount(claims: seq<bytes>, revealSet: set<nat>)
    requires |claims| <= MAX_BBS_MESSAGES
    ensures |RevealedClaims(claims, revealSet)| <= |claims|
  {
    CountsPartition(|claims|, revealSet);
  }

  /** A proof that `derive_proof` returns verifies under an issuer key exactly when the signature does. */
  lemma DerivedProofVerifies<P(!new)>(lib: Library<P>, claims: seq<bytes>, signature: bytes, shown: seq<nat>,
                                      nonce: bytes, coins: Coins, issuerKey: bytes, p: SelectiveProof)
    requires Lawful(lib) && coins.r1 % lib.group.order != 0 && |coins.message| == |claims|
    requires DeriveProof(lib, claims, signature, shown, nonce, coins) == Ok(p) && lib.deserKey(issuerKey).Some?
    ensures lib.deserSignature(signature).Some?
    ensures Verify(lib, p, issuerKey, nonce)
       <==> SignatureVerifies(lib.group, lib.deriveParams(|claims|), lib.deserKey(issuerKey).value,
                              lib.deserSignature(signature).value, Messages(lib, claims))
  {
    var g, params, messages := lib.group, lib.deriveParams(|claims|), Messages(lib, claims);
    var revealSet := set i | i in shown;
    var sig := lib.deserSignature(signature).value;
    var pok, o := DerivedOpens(lib, claims, sig, revealSet, nonce, coins, issuerKey, p);
    RevealedKeys(messages, revealSet);
    assert ParamsAt(lib, |claims|);
    HonestProof(g, params, sig, messages, o.revealed, coins,
                Challenge(lib, Contribution(lib, o.bbs, o.revealed, params), nonce), o.key);
  }

  /** What `derive_proof` returns lists exactly the reveal set, in increasing order with the right claims, and
      survives the wire exactly when its byte fields fit their prefixes. */
  lemma DerivedProofEncodes<P(!new)>(lib: Library<P>, claims: seq<bytes>, signature: bytes, shown: seq<nat>,
                                     nonce: bytes, coins: Coins, p: SelectiveProof)
    requires Prime(lib.group.order) && coins.r1 % lib.group.order != 0 && |coins.message| == |claims|
    requires DeriveProof(lib, claims, signature, shown, nonce, coins) == Ok(p)
    ensures p.messageCount == |claims| && forall i :: i in shown ==> i < |claims|
    ensures Lists(p.revealed, claims, set i | i in shown, |claims|)
    ensures Decode(Encode(p)) == Ok(p) <==> Short(p.proof) && forall i :: i in shown ==> Short(claims[i])
  {
    var revealSet := set i | i in shown;
    assert forall i :: i in shown ==> i in revealSet;
    RevealedClaimsExact(claims, revealSet);
    EmittedIsDisciplined(claims, revealSet, Below(|claims|));
    RoundTrip(p);
  }

  /** A decoded proof never fails the verifier's count, index or duplicate checks. */
  lemma DecodedPassesIndexChecks<P>(lib: Library<P>, b: bytes, p: SelectiveProof)
    requires lib.group.order > 0 && Decode(b) == Ok(p)
    ensures MessageCountInRange(p.messageCount, |p.revealed|)
    ensures Collect(lib, p.revealed, 0, p.messageCount, map[]).Ok?
  {
    Canonical(b, p);
    DisciplinedFits(p.revealed, Below(p.messageCount));
    CollectDisciplined(lib, p.revealed, Below(p.messageCount), 0);
  }

  lemma DeriveSucceeds<P>(lib: Library<P>, claims: seq<bytes>, sig: Signature<P>, revealSet: set<nat>, nonce: bytes,
                          coins: Coins)
    requires ParamsShape(lib) && Prime(lib.group.order) && coins.r1 % lib.group.order != 0
    requires 0 < |claims| == |coins.message| <= MAX_BBS_MESSAGES
    ensures Derive(lib, claims, sig, revealSet, nonce, coins).Ok?
  {
    assert ParamsAt(lib, |claims|);
  }

  /** `derive_proof` succeeds exactly for one to 64 claims, a decodable signature and a reveal list in range. */
  lemma DeriveProofSucceeds<P>(lib: Library<P>, claims: seq<bytes>, signature: bytes, shown: seq<nat>, nonce: bytes,
                               coins: Coins)
    requires ParamsShape(lib) && Prime(lib.group.order) && coins.r1 % lib.group.order != 0
    requires |coins.message| == |claims|
    ensures DeriveProof(lib, claims, signature, shown, nonce, coins).Ok?
       <==> (&& 0 < |claims| <= MAX_BBS_MESSAGES && lib.deserSignature(signature).Some?
             && forall i :: i in shown ==> i < |claims|)
  {
    var revealSet := set i | i in shown;
    assert forall i: nat :: i in shown <==> i in revealSet;
    if 0 < |claims| <= MAX_BBS_MESSAGES && lib.deserSignature(signature).Some? {
      DeriveSucceeds(lib, claims, lib.deserSignature(signature).value, revealSet, nonce, coins);
    }
  }

  /** `verify_proof` on bytes whatever: it accepts exactly the encodings of well-formed proofs that verify. */
  lemma VerifyProofBytesExactly<P>(lib: Library<P>, b: bytes, issuerKey: bytes, nonce: bytes)
    requires lib.group.order > 0
    ensures VerifyProofBytes(lib, b, issuerKey, nonce)
       <==> exists p :: WellFormed(p) && Encode(p) == b && Verify(lib, p, issuerKey, nonce)
  {
    if Decode(b).Ok? {
      Canonical(b, Decode(b).value);
    }
    if p :| WellFormed(p) && Encode(p) == b && Verify(lib, p, issuerKey, nonce) {
      RoundTrip(p);
    }
  }

  /** The encoding of a derived proof is accepted under an issuer key exactly when the credential is valid under it,
      provided the byte fields fit their prefixes. */
  lemma DerivedBytesVerify<P(!new)>(lib: Library<P>, claims: seq<bytes>, signature: bytes, shown: seq<nat>,
                                    nonce: bytes, coins: Coins, issuerKey: bytes, p: SelectiveProof)
    requires Lawful(lib) && coins.r1 % lib.group.order != 0 && |coins.message| == |claims|
    requires DeriveProof(lib, claims, signature, shown, nonce, coins) == Ok(p) && lib.deserKey(issuerKey).Some?
    requires Short(p.proof) && forall i :: i in shown ==> i < |claims| && Short(claims[i])
    ensures lib.deserSignature(signature).Some?
    ensures VerifyProofBytes(lib, Encode(p), issuerKey, nonce)
       <==> SignatureVerifies(lib.group, lib.deriveParams(|claims|), lib.deserKey(issuerKey).value,
                              lib.deserSignature(signature).value, Messages(lib, claims))
  {
    DerivedProofVerifies(lib, claims, signature, shown, nonce, coins, issuerKey, p);
    DerivedProofEncodes(lib, claims, signature, shown, nonce, coins, p);
  }

  // ---------------------------------------------------------------- what a challenge binds

  /** What the verifier has checked once a proof is opened, on proofs decoded or built by hand. */
  lemma OpenGuards<P(!new)>(lib: Library<P>, p: SelectiveProof, issuerKey: bytes, o: Opened<P>)
    requires lib.group.order > 0 && Open(lib, p, issuerKey) == Some(o)
    ensures 1 <= p.messageCount <= MAX_BBS_MESSAGES && |p.revealed| <= p.messageCount
    ensures Distinct(p.revealed) && Within(p.revealed, 0, p.messageCount)
    ensures Denotes(lib, p.revealed, o.revealed) && MapReduced(lib, o.revealed)
    ensures forall i :: i in o.revealed ==> i < p.messageCount
  {
    CollectExactly(lib, p.revealed, 0, p.messageCount);
    CollectStaysWithin(lib, p.revealed, 0, p.messageCount, map[]);
  }

  /** The transcript a proof is checked against. */
  ghost function TranscriptOf<P>(lib: Library<P>, p: SelectiveProof, o: Opened<P>, nonce: bytes): bytes {
    ProofTranscript(Contribution(lib, o.bbs, o.revealed, lib.deriveParams(p.messageCount)), nonce)
  }

  /** Two opened proofs of credentials of one size: equal transcripts have one nonce, one set of commitments and the
      same revealed scalars but for a clash. */
  lemma TranscriptDeterminesStatement<P(!new)>(lib: Library<P>, p: SelectiveProof, keyP: bytes, o: Opened<P>,
                                               nonce: bytes, q: SelectiveProof, keyQ: bytes, o': Opened<P>,
                                               nonce': bytes)
    requires Lawful(lib) && p.messageCount == q.messageCount
    requires Open(lib, p, keyP) == Some(o) && Open(lib, q, keyQ) == Some(o')
    requires TranscriptOf(lib, p, o, nonce) == TranscriptOf(lib, q, o', nonce')
    ensures nonce == nonce' && SameCommitments(o.bbs, o'.bbs)
    ensures SameShown(lib, p.messageCount, o.revealed, o'.revealed)
  {
    var params := lib.deriveParams(p.messageCount);
    OpenGuards(lib, p, keyP, o);
    OpenGuards(lib, q, keyQ, o');
    assert ParamsAt(lib, p.messageCount);
    var c, c' := Contribution(lib, o.bbs, o.revealed, params), Contribution(lib, o'.bbs, o'.revealed, params);
    BbsContributionIsShort(lib, o.bbs.aPrime, o.bbs.aBar, o.bbs.d, o.bbs.first.t, o.bbs.t2, o.revealed, params);
    BbsContributionIsShort(lib, o'.bbs.aPrime, o'.bbs.aBar, o'.bbs.d, o'.bbs.first.t, o'.bbs.t2, o'.revealed, params);
    ProofTranscriptInjective(c, nonce, c', nonce');
    ContributionsBind(lib, p.messageCount, o.bbs, o.revealed, o'.bbs, o'.revealed);
  }

  /** The revealed claims cannot be exchanged under an accepted BBS+ proof: they are the same but for confusable
      claims, or the proof's first statement is the identity, or a clash or two transcripts with one random-oracle
      value are exhibited. */
  lemma OneProofOneRevealedList<P(!new)>(lib: Library<P>, p: SelectiveProof, keyP: bytes, nonce: bytes,
                                         q: SelectiveProof, keyQ: bytes, nonce': bytes)
    requires Lawful(lib) && p.messageCount == q.messageCount && p.proof == q.proof
    requires Verify(lib, p, keyP, nonce) && Verify(lib, q, keyQ, nonce')
    ensures
      var o, o', h := Open(lib, p, keyP).value, Open(lib, q, keyQ).value, lib.deriveParams(p.messageCount).h;
      || SameRevealed(lib, p.revealed, q.revealed)
      || o.bbs.aBar == o.bbs.d
      || Clash(lib, h, o.revealed) || Clash(lib, h, o'.revealed)
      || Collision(lib.randomOracle, TranscriptOf(lib, p, o, nonce), TranscriptOf(lib, q, o', nonce'))
  {
    var o, o', params := Open(lib, p, keyP).value, Open(lib, q, keyQ).value, lib.deriveParams(p.messageCount);
    var t, t' := TranscriptOf(lib, p, o, nonce), TranscriptOf(lib, q, o', nonce');
    var c, c' := lib.randomOracle(t), lib.randomOracle(t');
    assert OracleAt(lib, t) && OracleAt(lib, t');
    OneAnswer(lib.group, params, o.bbs, o.revealed, o.key, c, o'.revealed, o'.key, c');
    if c == c' && t == t' {
      TranscriptDeterminesStatement(lib, p, keyP, o, nonce, q, keyQ, o', nonce');
      if o.revealed == o'.revealed {
        OpenGuards(lib, p, keyP, o);
        OpenGuards(lib, q, keyQ, o');
        OneMapOneClaims(lib, p.revealed, q.revealed, o.revealed);
      }
    }
  }

  // ---------------------------------------------------------------- ballot binding

  /** `verify_bound_proof`: the ballot is the nonce. */
  predicate VerifyBoundProof<P(==)>(lib: Library<P>, b: bytes, issuerKey: bytes, electionId: bytes, nullifier: bytes,
                                    signal: bytes)
    requires lib.group.order > 0
  {
    VerifyProofBytes(lib, b, issuerKey, lib.sha256(BindNoncePreimage(electionId, nullifier, signal)))
  }

  /** The encoding of a proof derived under the ballot's nonce is accepted for that ballot exactly when the credential
      is valid. */
  lemma BoundProofVerifies<P(!new)>(lib: Library<P>, claims: seq<bytes>, signature: bytes, shown: seq<nat>,
                                    coins: Coins, issuerKey: bytes, electionId: bytes, nullifier: bytes, signal: bytes,
                                    p: SelectiveProof)
    requires Lawful(lib) && coins.r1 % lib.group.order != 0 && |coins.message| == |claims|
    requires
      var nonce := lib.sha256(BindNoncePreimage(electionId, nullifier, signal));
      DeriveProof(lib, claims, signature, shown, nonce, coins) == Ok(p) && lib.deserKey(issuerKey).Some?
    requires Short(p.proof) && forall i :: i in shown ==> i < |claims| && Short(claims[i])
    ensures lib.deserSignature(signature).Some?
    ensures VerifyBoundProof(lib, Encode(p), issuerKey, electionId, nullifier, signal)
       <==> SignatureVerifies(lib.group, lib.deriveParams(|claims|), lib.deserKey(issuerKey).value,
                              lib.deserSignature(signature).value, Messages(lib, claims))
  {
    DerivedBytesVerify(lib, claims, signature, shown, lib.sha256(BindNoncePreimage(electionId, nullifier, signal)),
                       coins, issuerKey, p);
  }

  /** A proof accepted under one nonce is accepted under another exactly when the two challenges agree or the
      proof's statements are the identity. */
  lemma AcceptedUnderBothNonces<P(!new)>(lib: Library<P>, p: SelectiveProof, issuerKey: bytes, nonce: bytes,
                                         nonce': bytes, o: Opened<P>)
    requires IsGroup(lib.group) && HashShapes(lib)
    requires Verify(lib, p, issuerKey, nonce) && Open(lib, p, issuerKey) == Some(o)
    ensures
      var params := lib.deriveParams(p.messageCount);
      var contribution := Contribution(lib, o.bbs, o.revealed, params);
      Verify(lib, p, issuerKey, nonce')
      <==> (|| Challenge(lib, contribution, nonce) == Challenge(lib, contribution, nonce')
            || Degenerate(lib.group, params, o.bbs, o.revealed))
  {
    var params := lib.deriveParams(p.messageCount);
    var contribution := Contribution(lib, o.bbs, o.revealed, params);
    var c, c' := Challenge(lib, contribution, nonce), Challenge(lib, contribution, nonce');
    AcceptedAgain(lib.group, params, o.bbs, o.revealed, o.key, c, c');
    assert OracleAt(lib, ProofTranscript(contribution, nonce)) && OracleAt(lib, ProofTranscript(contribution, nonce'));
    if (c - c') % lib.group.order == 0 {
      ReducedCongruent(c, c', lib.group.order);
    }
  }

  /** On one contribution a transcript determines the nonce, however long it is. */
  lemma NoncesDetermined(contribution: bytes, nonce: bytes, nonce': bytes)
    requires ProofTranscript(contribution, nonce) == ProofTranscript(contribution, nonce')
    ensures nonce == nonce'
  {
    var d, c := Frame(4, PROOF_CHALLENGE_DOMAIN), Frame(4, contribution);
    PrefixesAgree(d, c + (Frame(4, nonce) + []), d, c + (Frame(4, nonce') + []));
    PrefixesAgree(c, Frame(4, nonce) + [], c, Frame(4, nonce') + []);
    SplitLast(nonce, nonce');
  }

  /** One selective proof is accepted under one issuer key only, whatever the nonces. */
  lemma OneProofOneIssuer<P(!new)>(lib: Library<P>, p: SelectiveProof, issuerKey: bytes, nonce: bytes,
                                   issuerKey': bytes, nonce': bytes)
    requires IsGroup(lib.group) && KeysRoundTrip(lib)
    requires Verify(lib, p, issuerKey, nonce) && Verify(lib, p, issuerKey', nonce')
    ensures lib.deserKey(issuerKey) == lib.deserKey(issuerKey')
    ensures Open(lib, p, issuerKey) == Open(lib, p, issuerKey')
  {
    var o, o' := Open(lib, p, issuerKey).value, Open(lib, p, issuerKey').value;
    var params := lib.deriveParams(p.messageCount);
    var contribution := Contribution(lib, o.bbs, o.revealed, params);
    assert KeyBytesAt(lib, issuerKey) && KeyBytesAt(lib, issuerKey');
    OneProofOneKey(lib.group, o.bbs, params, o.revealed, Challenge(lib, contribution, nonce), o.key,
                   params, o'.revealed, Challenge(lib, contribution, nonce'), o'.key);
    SmallResidue(o.key, lib.group.order);
    SmallResidue(o'.key, lib.group.order);
  }

  /** Two acceptances name the same nonce, or the proof's statements are the identity, or two inputs with one
      random-oracle value are exhibited. */
  lemma OneProofOneNonce<P(!new)>(lib: Library<P>, p: SelectiveProof, issuerKey: bytes, nonce: bytes, nonce': bytes,
                                  o: Opened<P>)
    requires IsGroup(lib.group) && HashShapes(lib)
    requires Verify(lib, p, issuerKey, nonce) && Verify(lib, p, issuerKey, nonce') && Open(lib, p, issuerKey) == Some(o)
    ensures
      var params := lib.deriveParams(p.messageCount);
      var contribution := Contribution(lib, o.bbs, o.revealed, params);
      || nonce == nonce'
      || Degenerate(lib.group, params, o.bbs, o.revealed)
      || Collision(lib.randomOracle, ProofTranscript(contribution, nonce), ProofTranscript(contribution, nonce'))
  {
    var contribution := Contribution(lib, o.bbs, o.revealed, lib.deriveParams(p.messageCount));
    AcceptedUnderBothNonces(lib, p, issuerKey, nonce, nonce', o);
    if ProofTranscript(contribution, nonce) == ProofTranscript(contribution, nonce') {
      NoncesDetermined(contribution, nonce, nonce');
    }
  }

  datatype Ballot = Ballot(electionId: bytes, nullifier: bytes, signal: bytes)

  ghost function NoncePreimage(b: Ballot): bytes { BindNoncePreimage(b.electionId, b.nullifier, b.signal) }

  /** The ballot-binding claim for decoded proofs: two acceptances name the same ballot, or the proof's
      statements are the identity, or two inputs with one hash are exhibited. */
  ghost predicate BoundToOneBallot<P(!new)>(lib: Library<P>, p: SelectiveProof, o: Opened<P>, a: Ballot, b: Ballot)
    requires lib.group.order > 0
  {
    var params := lib.deriveParams(p.messageCount);
    var contribution := Contribution(lib, o.bbs, o.revealed, params);
    || a == b
    || Degenerate(lib.group, params, o.bbs, o.revealed)
    || Collision(lib.randomOracle, ProofTranscript(contribution, lib.sha256(NoncePreimage(a))),
                 ProofTranscript(contribution, lib.sha256(NoncePreimage(b))))
    || Collision(lib.sha256, NoncePreimage(a), NoncePreimage(b))
  }

  lemma OneProofOneBallot<P(!new)>(lib: Library<P>, p: SelectiveProof, issuerKey: bytes, a: Ballot, b: Ballot,
                                   o: Opened<P>)
    requires IsGroup(lib.group) && HashShapes(lib)
    requires Addressable(a.electionId) && Addressable(a.signal) && Addressable(b.electionId) && Addressable(b.signal)
    requires Verify(lib, p, issuerKey, lib.sha256(NoncePreimage(a)))
    requires Verify(lib, p, issuerKey, lib.sha256(NoncePreimage(b)))
    requires Open(lib, p, issuerKey) == Some(o)
    ensures BoundToOneBallot(lib, p, o, a, b)
  {
    OneProofOneNonce(lib, p, issuerKey, lib.sha256(NoncePreimage(a)), lib.sha256(NoncePreimage(b)), o);
    if NoncePreimage(a) == NoncePreimage(b) {
      BindNoncePreimageInjective(a.electionId, a.nullifier, a.signal, b.electionId, b.nullifier, b.signal);
    }
  }

  /** `verify_bound_proof` accepts one proof under one issuer key and for one ballot only, in the sense above. */
  lemma BoundProofOneBallot<P(!new)>(lib: Library<P>, proof: bytes, issuerKey: bytes, a: Ballot, issuerKey': bytes,
                                     b: Ballot)
    requires IsGroup(lib.group) && HashShapes(lib) && KeysRoundTrip(lib)
    requires Addressable(a.electionId) && Addressable(a.signal) && Addressable(b.electionId) && Addressable(b.signal)
    requires VerifyBoundProof(lib, proof, issuerKey, a.electionId, a.nullifier, a.signal)
    requires VerifyBoundProof(lib, proof, issuerKey', b.electionId, b.nullifier, b.signal)
    ensures lib.deserKey(issuerKey) == lib.deserKey(issuerKey')
    ensures BoundToOneBallot(lib, Decode(proof).value, Open(lib, Decode(proof).value, issuerKey).value, a, b)
  {
    var p := Decode(proof).value;
    OneProofOneIssuer(lib, p, issuerKey, lib.sha256(NoncePreimage(a)), issuerKey', lib.sha256(NoncePreimage(b)));
    OneProofOneBallot(lib, p, issuerKey, a, b, Open(lib, p, issuerKey).value);
  }
}
