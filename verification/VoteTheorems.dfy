/** What the composed vote proof guarantees: it verifies exactly for valid credentials, it proves knowledge
    of one secret behind credential and nullifier, and it fits one context only. */
module VoteTheorems {
  import opened Wrappers
  import opened Bytes
  import opened PrimeGroup
  import opened Schnorr
  import opened BbsPlus
  import opened HonestExtraction
  import opened Crypto
  import opened ChallengeInputs
  import opened Revealed
  import opened RevealSet
  import opened Framing
  import opened VoteCodec
  import opened Vote

  // ---------------------------------------------------------------- one proof, one context

  ghost predicate ContextAddressable(ctx: Context) {
    Addressable(ctx.chainId) && Addressable(ctx.electionId) && Addressable(ctx.signal)
  }

  /** The transcript a proof is checked against in a context. */
  ghost function TranscriptIn<P>(lib: Library<P>, v: VoteProof<P>, ctx: Context): bytes
    requires lib.group.order > 0 && Open(lib, v, ctx).Ok?
  {
    var o := Open(lib, v, ctx).value;
    VerifierTranscript(lib, v, ctx, o.key, o.bbs, o.dl, o.revealed, o.hE)
  }

  ghost function BindPreimageIn<P>(lib: Library<P>, v: VoteProof<P>, ctx: Context): bytes {
    BindPreimage(ctx.chainId, ctx.electionId, lib.serPoint(v.nullifier), ctx.signal)
  }

  /** What the verifier has in hand once a proof is opened. */
  lemma OpenFacts<P(!new)>(lib: Library<P>, v: VoteProof<P>, ctx: Context, o: Opened<P>)
    requires lib.group.order > 0 && HashShapes(lib) && KeysRoundTrip(lib) && Open(lib, v, ctx) == Ok(o)
    ensures v.nullifier != lib.group.zero
    ensures lib.deserKey(ctx.issuerKey) == Some(o.key) && Reduced(o.key, lib.group.order)
    ensures lib.deserBbs(v.bbsProof) == Some(o.bbs) && lib.deserDl(v.dlProof) == Some(o.dl)
    ensures Collect(lib, v.revealed, VOTER_SECRET_MSG_INDEX + 1, v.messageCount, map[]) == Ok(o.revealed)
    ensures HashToG1(lib, ctx.electionId) == Ok(o.hE)
    ensures o.challenge == lib.randomOracle(TranscriptIn(lib, v, ctx)) && Reduced(o.challenge, lib.group.order)
  {
    assert OracleAt(lib, TranscriptIn(lib, v, ctx));
    assert KeyBytesAt(lib, ctx.issuerKey);
  }

  /** Two proofs with the same eligibility part; nullifier and discrete-log proof are free. */
  ghost predicate SameEligibility<P>(v: VoteProof<P>, w: VoteProof<P>) {
    v.messageCount == w.messageCount && v.revealed == w.revealed && v.bbsProof == w.bbsProof
  }

  /** Equal transcripts on one eligibility part determine the nullifier, the generator, the discrete-log commitment
      and the ballot binding, whatever the lengths of their fields. */
  lemma TranscriptsDetermine<P(!new)>(lib: Library<P>, v: VoteProof<P>, a: Context, o: Opened<P>, w: VoteProof<P>,
                                      b: Context, o': Opened<P>)
    requires HashShapes(lib) && PointsCanonical(lib)
    requires v.messageCount == w.messageCount && o.bbs == o'.bbs && o.revealed == o'.revealed
    requires VerifierTranscript(lib, v, a, o.key, o.bbs, o.dl, o.revealed, o.hE)
          == VerifierTranscript(lib, w, b, o'.key, o'.bbs, o'.dl, o'.revealed, o'.hE)
    ensures v.nullifier == w.nullifier && o.hE == o'.hE && o.dl.t == o'.dl.t
    ensures lib.sha256(BindPreimageIn(lib, v, a)) == lib.sha256(BindPreimageIn(lib, w, b))
  {
    var params := lib.deriveParams(v.messageCount);
    var bbs := BbsContribution(lib, o.bbs.aPrime, o.bbs.aBar, o.bbs.d, o.bbs.first.t, o.bbs.t2, o.revealed, params);
    var dl, dl' := DlContribution(lib, o.hE, v.nullifier, o.dl.t), DlContribution(lib, o'.hE, w.nullifier, o'.dl.t);
    assert DigestAt(lib, BindPreimageIn(lib, v, a)) && DigestAt(lib, BindPreimageIn(lib, w, b));
    DlContributionInjective(lib, o.hE, v.nullifier, o.dl.t, o'.hE, w.nullifier, o'.dl.t);
    VoteTranscriptBinds(v.messageCount, lib.serKey(o.key), lib.serKey(o'.key), bbs, dl, dl',
                        lib.sha256(BindPreimageIn(lib, v, a)), lib.sha256(BindPreimageIn(lib, w, b)));
  }

  lemma BindingsDetermine<P(!new)>(lib: Library<P>, v: VoteProof<P>, a: Context, w: VoteProof<P>, b: Context)
    requires PointsCanonical(lib) && ContextAddressable(a) && ContextAddressable(b)
    requires BindPreimageIn(lib, v, a) == BindPreimageIn(lib, w, b)
    ensures a.chainId == b.chainId && a.electionId == b.electionId && a.signal == b.signal
  {
    var n, n' := lib.serPoint(v.nullifier), lib.serPoint(w.nullifier);
    assert PointAt(lib, v.nullifier) && PointAt(lib, w.nullifier);
    BindPreimageInjective(a.chainId, a.electionId, n, a.signal, b.chainId, b.electionId, n', b.signal);
  }

  /** What two acceptances bound to one challenge agree on. */
  ghost predicate SameBallot<P>(v: VoteProof<P>, a: Context, w: VoteProof<P>, b: Context) {
    v.nullifier == w.nullifier && a.chainId == b.chainId && a.electionId == b.electionId && a.signal == b.signal
  }

  /** Two inputs with one hash, named by the two acceptances. */
  ghost predicate HashCollision<P>(lib: Library<P>, v: VoteProof<P>, a: Context, w: VoteProof<P>, b: Context)
    requires lib.group.order > 0 && Open(lib, v, a).Ok? && Open(lib, w, b).Ok?
  {
    || Collision(lib.randomOracle, TranscriptIn(lib, v, a), TranscriptIn(lib, w, b))
    || Collision(lib.sha256, BindPreimageIn(lib, v, a), BindPreimageIn(lib, w, b))
  }

  /** One challenge on one eligibility part is one ballot, or a collision. */
  lemma OneChallengeOneBallot<P(!new)>(lib: Library<P>, v: VoteProof<P>, a: Context, o: Opened<P>, w: VoteProof<P>,
                                       b: Context, o': Opened<P>)
    requires lib.group.order > 0 && HashShapes(lib) && KeysRoundTrip(lib) && PointsCanonical(lib)
    requires ContextAddressable(a) && ContextAddressable(b) && SameEligibility(v, w)
    requires Open(lib, v, a) == Ok(o) && Open(lib, w, b) == Ok(o') && o.challenge == o'.challenge
    ensures SameBallot(v, a, w, b) || HashCollision(lib, v, a, w, b)
  {
    OpenFacts(lib, v, a, o);
    OpenFacts(lib, w, b, o');
    if TranscriptIn(lib, v, a) == TranscriptIn(lib, w, b) {
      TranscriptsDetermine(lib, v, a, o, w, b, o');
      if BindPreimageIn(lib, v, a) == BindPreimageIn(lib, w, b) {
        BindingsDetermine(lib, v, a, w, b);
      }
    }
  }

  /** One eligibility proof is accepted under one issuer key only. */
  lemma OneProofOneIssuer<P(!new)>(lib: Library<P>, v: VoteProof<P>, a: Context, w: VoteProof<P>, b: Context)
    requires IsGroup(lib.group) && HashShapes(lib) && KeysRoundTrip(lib) && v.bbsProof == w.bbsProof
    requires Verify(lib, v, a).Ok? && Verify(lib, w, b).Ok?
    ensures lib.deserKey(a.issuerKey) == lib.deserKey(b.issuerKey)
  {
    var o, o' := Open(lib, v, a).value, Open(lib, w, b).value;
    OpenFacts(lib, v, a, o);
    OpenFacts(lib, w, b, o');
    OneProofOneKey(lib.group, o.bbs, lib.deriveParams(v.messageCount), o.revealed, o.challenge, o.key,
                   lib.deriveParams(w.messageCount), o'.revealed, o'.challenge, o'.key);
    SmallResidue(o.key, lib.group.order);
    SmallResidue(o'.key, lib.group.order);
  }

  /** The BBS+ part of an accepted proof answers one challenge only, unless its statements are the identity. */
  lemma SameBbsChallenge<P(!new)>(lib: Library<P>, v: VoteProof<P>, a: Context, o: Opened<P>, w: VoteProof<P>,
                                  b: Context, o': Opened<P>)
    requires IsGroup(lib.group) && HashShapes(lib) && KeysRoundTrip(lib) && SameEligibility(v, w)
    requires Open(lib, v, a) == Ok(o) && Open(lib, w, b) == Ok(o') && o.key == o'.key
    requires Check(lib, v, o).Ok? && Check(lib, w, o').Ok?
    ensures o.challenge == o'.challenge || Degenerate(lib.group, lib.deriveParams(v.messageCount), o.bbs, o.revealed)
  {
    OpenFacts(lib, v, a, o);
    OpenFacts(lib, w, b, o');
    AcceptedAgain(lib.group, lib.deriveParams(v.messageCount), o.bbs, o.revealed, o.key, o.challenge, o'.challenge);
    if (o.challenge - o'.challenge) % lib.group.order == 0 {
      ReducedCongruent(o.challenge, o'.challenge, lib.group.order);
    }
  }

  /** An eligibility proof accepted twice, in any two contexts and with any nullifiers and discrete-log proofs
      attached, was accepted under one issuer key; and for one nullifier, chain, election and signal, unless its
      BBS+ statements are the identity or the two acceptances exhibit two inputs with one hash. */
  lemma OneProofOneContext<P(!new)>(lib: Library<P>, v: VoteProof<P>, a: Context, w: VoteProof<P>, b: Context)
    requires IsGroup(lib.group) && HashShapes(lib) && KeysRoundTrip(lib) && PointsCanonical(lib)
    requires ContextAddressable(a) && ContextAddressable(b) && SameEligibility(v, w)
    requires Verify(lib, v, a).Ok? && Verify(lib, w, b).Ok?
    ensures Open(lib, v, a).Ok? && Open(lib, w, b).Ok?
    ensures lib.deserKey(a.issuerKey) == lib.deserKey(b.issuerKey)
    ensures
      var o := Open(lib, v, a).value;
      || SameBallot(v, a, w, b)
      || Degenerate(lib.group, lib.deriveParams(v.messageCount), o.bbs, o.revealed)
      || HashCollision(lib, v, a, w, b)
  {
    var o, o' := Open(lib, v, a).value, Open(lib, w, b).value;
    OneProofOneIssuer(lib, v, a, w, b);
    SameBbsChallenge(lib, v, a, o, w, b, o');
    if o.challenge == o'.challenge {
      OneChallengeOneBallot(lib, v, a, o, w, b, o');
    }
  }

  /** One discrete-log proof answers one challenge only. */
  lemma SameChallenge<P(!new)>(g: Group<P>, dl: DlProof<P>, nullifier: P, hE: P, c: int, c': int)
    requires IsGroup(g) && nullifier != g.zero && Reduced(c, g.order) && Reduced(c', g.order)
    requires DlVerify(g, dl, nullifier, hE, c) && DlVerify(g, dl, nullifier, hE, c')
    ensures c == c'
  {
    DlOpens(g, dl, nullifier, hE, c);
    DlOpens(g, dl, nullifier, hE, c');
    SameResponsesSameChallenge(g, [hE], nullifier, dl.t, c, c', [dl.response]);
    ReducedCongruent(c, c', g.order);
  }

  /** Within one election the discrete-log part leaves no room for a degenerate statement: a proof accepted twice
      was accepted for one issuer key, and for one chain and signal or a collision is exhibited. */
  lemma OneProofPerElection<P(!new)>(lib: Library<P>, v: VoteProof<P>, a: Context, b: Context)
    requires IsGroup(lib.group) && HashShapes(lib) && KeysRoundTrip(lib) && PointsCanonical(lib)
    requires ContextAddressable(a) && ContextAddressable(b) && a.electionId == b.electionId
    requires Verify(lib, v, a).Ok? && Verify(lib, v, b).Ok?
    ensures Open(lib, v, a).Ok? && Open(lib, v, b).Ok?
    ensures lib.deserKey(a.issuerKey) == lib.deserKey(b.issuerKey)
    ensures SameBallot(v, a, v, b) || HashCollision(lib, v, a, v, b)
  {
    var o, o' := Open(lib, v, a).value, Open(lib, v, b).value;
    OneProofOneIssuer(lib, v, a, v, b);
    OpenFacts(lib, v, a, o);
    OpenFacts(lib, v, b, o');
    SameChallenge(lib.group, o.dl, v.nullifier, o.hE, o.challenge, o'.challenge);
    OneChallengeOneBallot(lib, v, a, o, v, b, o');
  }

  /** Where the transcripts are equal, the discrete-log proof is determined too: it cannot be exchanged for
      another one without the transcript changing. */
  lemma DlPartDetermined<P(!new)>(lib: Library<P>, v: VoteProof<P>, a: Context, w: VoteProof<P>, b: Context)
    requires Lawful(lib) && SameEligibility(v, w)
    requires Verify(lib, v, a).Ok? && Verify(lib, w, b).Ok? && TranscriptIn(lib, v, a) == TranscriptIn(lib, w, b)
    ensures lib.deserDl(v.dlProof) == lib.deserDl(w.dlProof)
  {
    var o, o' := Open(lib, v, a).value, Open(lib, w, b).value;
    OpenFacts(lib, v, a, o);
    OpenFacts(lib, w, b, o');
    TranscriptsDetermine(lib, v, a, o, w, b, o');
    assert DlBytesAt(lib, v.dlProof) && DlBytesAt(lib, w.dlProof);
    assert ScalarsAt(lib, o.dl.response, o'.dl.response);
  }

  // ---------------------------------------------------------------- one secret behind credential and nullifier

  /** Two accepted proofs that share everything up to the challenge and answer different challenges. */
  ghost predicate VoteFork<P>(lib: Library<P>, v: VoteProof<P>, o: Opened<P>, w: VoteProof<P>, o': Opened<P>)
    requires lib.group.order > 0
  {
    && Check(lib, v, o).Ok? && Check(lib, w, o').Ok?
    && v.messageCount == w.messageCount > 0 && v.nullifier == w.nullifier
    && o.key == o'.key && o.hE == o'.hE && o.revealed == o'.revealed && VOTER_SECRET_MSG_INDEX !in o.revealed
    && SameCommitments(o.bbs, o'.bbs) && o.dl.t == o'.dl.t
    && (o.challenge - o'.challenge) % lib.group.order != 0
    && BbsReduced(o.bbs, lib.group.order) && BbsReduced(o'.bbs, lib.group.order)
    && Reduced(o.dl.response, lib.group.order) && Reduced(o'.dl.response, lib.group.order)
  }

  /** The same library with its random oracle programmed differently: what a prover is rewound to. */
  ghost predicate Reprogrammed<P>(lib: Library<P>, lib': Library<P>) {
    lib' == lib.(randomOracle := lib'.randomOracle)
  }

  /** Two proofs that verifiers accept, equal up to the responses and answering different challenges, fork: be it
      that one oracle was asked about two ballots, or that the prover was rewound to another oracle. */
  lemma AcceptedProofsFork<P(!new)>(lib: Library<P>, v: VoteProof<P>, a: Context, lib': Library<P>, w: VoteProof<P>,
                                    b: Context)
    requires lib.group.order > 0 && ProofsRoundTrip(lib) && Reprogrammed(lib, lib')
    requires Verify(lib, v, a).Ok? && Verify(lib', w, b).Ok?
    requires v.messageCount == w.messageCount && v.revealed == w.revealed && v.nullifier == w.nullifier
    requires a.issuerKey == b.issuerKey && a.electionId == b.electionId
    requires
      var o, o' := Open(lib, v, a).value, Open(lib', w, b).value;
      SameCommitments(o.bbs, o'.bbs) && o.dl.t == o'.dl.t && (o.challenge - o'.challenge) % lib.group.order != 0
    ensures VoteFork(lib, v, Open(lib, v, a).value, w, Open(lib', w, b).value)
  {
    CollectIgnoresOracle(lib, lib', v.revealed, VOTER_SECRET_MSG_INDEX + 1, v.messageCount, map[]);
    CollectStaysWithin(lib, v.revealed, VOTER_SECRET_MSG_INDEX + 1, v.messageCount, map[]);
    assert BbsBytesAt(lib, v.bbsProof) && BbsBytesAt(lib, w.bbsProof);
    assert DlBytesAt(lib, v.dlProof) && DlBytesAt(lib, w.dlProof);
  }

  ghost function ForkOf<P>(lib: Library<P>, v: VoteProof<P>, o: Opened<P>, o': Opened<P>): ForkCase<P> {
    ForkCase(lib.deriveParams(v.messageCount), o.revealed, o.key, o.bbs, o.challenge, o'.bbs, o'.challenge)
  }

  lemma DlExtracts<P(!new)>(g: Group<P>, p: DlProof<P>, q: DlProof<P>, y: P, base: P, c: int, c': int)
    requires IsGroup(g) && p.t == q.t && (c - c') % g.order != 0
    requires DlVerify(g, p, y, base, c) && DlVerify(g, q, y, base, c')
    ensures Times(g, ExtractScalar(p.response, q.response, c, c', g.order), base) == y
  {
    DlOpens(g, p, y, base, c);
    DlOpens(g, q, y, base, c');
    ExtractOpens(g, [base], y, p.t, c, [p.response], c', [q.response]);
    var m := ExtractScalar(p.response, q.response, c, c', g.order);
    assert Extract([p.response], [q.response], c, c', g.order) == [m];
    MsmOne(g, base, m);
  }

  lemma VoteForkIsFork<P(!new)>(lib: Library<P>, v: VoteProof<P>, o: Opened<P>, w: VoteProof<P>, o': Opened<P>)
    requires IsGroup(lib.group) && ScalarsInjective(lib) && ParamsShape(lib) && VoteFork(lib, v, o, w, o')
    ensures Fork(lib.group, ForkOf(lib, v, o, o')) && |lib.deriveParams(v.messageCount).h| == v.messageCount
    ensures GetResponse(o.bbs, VOTER_SECRET_MSG_INDEX, o.revealed.Keys) == Some(o.dl.response)
    ensures GetResponse(o'.bbs, VOTER_SECRET_MSG_INDEX, o.revealed.Keys) == Some(o'.dl.response)
  {
    assert ParamsAt(lib, v.messageCount);
    assert ScalarsAt(lib, GetResponse(o.bbs, VOTER_SECRET_MSG_INDEX, o.revealed.Keys).value, o.dl.response);
    assert ScalarsAt(lib, GetResponse(o'.bbs, VOTER_SECRET_MSG_INDEX, o.revealed.Keys).value, o'.dl.response);
  }

  /** The equality check makes both proofs give up the same scalar: the secret in slot 0 of the credential
      is the discrete logarithm of the nullifier. */
  lemma WitnessEquality<P(!new)>(lib: Library<P>, v: VoteProof<P>, o: Opened<P>, w: VoteProof<P>, o': Opened<P>,
                                 f: ForkCase<P>)
    requires IsGroup(lib.group) && ScalarsInjective(lib) && ParamsShape(lib) && VoteFork(lib, v, o, w, o')
    requires f == ForkOf(lib, v, o, o')
    ensures Fork(lib.group, f) && |f.params.h| == v.messageCount
    ensures
      var m0 := ExtractScalar(o.dl.response, o'.dl.response, o.challenge, o'.challenge, lib.group.order);
      && Times(lib.group, m0, o.hE) == v.nullifier
      && ExtractedMessages(lib.group, f)[VOTER_SECRET_MSG_INDEX] == m0
  {
    VoteForkIsFork(lib, v, o, w, o');
    DlExtracts(lib.group, o.dl, o'.dl, v.nullifier, o.hE, o.challenge, o'.challenge);
    ExtractedAt(lib.group, f, VOTER_SECRET_MSG_INDEX);
  }

  /** Extraction from the composed proof: a credential whose secret in slot 0 is the discrete logarithm of
      the nullifier. */
  lemma VoteForkYieldsCredential<P(!new)>(lib: Library<P>, v: VoteProof<P>, o: Opened<P>, w: VoteProof<P>,
                                          o': Opened<P>, f: ForkCase<P>)
    requires IsGroup(lib.group) && ScalarsInjective(lib) && ParamsShape(lib) && VoteFork(lib, v, o, w, o')
    requires f == ForkOf(lib, v, o, o')
    ensures Fork(lib.group, f) && |f.params.h| == v.messageCount
    ensures CredentialExtracted(lib.group, f, ExtractedMessages(lib.group, f), ExtractedSignature(lib.group, f))
    ensures Times(lib.group, ExtractedMessages(lib.group, f)[VOTER_SECRET_MSG_INDEX], o.hE) == v.nullifier
  {
    WitnessEquality(lib, v, o, w, o', f);
    ForkYieldsSignature(lib.group, f);
  }

  lemma ExtractedSecretIsReduced<P(!new)>(lib: Library<P>, v: VoteProof<P>, o: Opened<P>, w: VoteProof<P>,
                                          o': Opened<P>, f: ForkCase<P>)
    requires IsGroup(lib.group) && ScalarsInjective(lib) && ParamsShape(lib) && VoteFork(lib, v, o, w, o')
    requires f == ForkOf(lib, v, o, o')
    ensures Fork(lib.group, f) && |f.params.h| == v.messageCount
    ensures Reduced(ExtractedMessages(lib.group, f)[VOTER_SECRET_MSG_INDEX], lib.group.order)
    ensures Times(lib.group, ExtractedMessages(lib.group, f)[VOTER_SECRET_MSG_INDEX], o.hE) == v.nullifier
  {
    WitnessEquality(lib, v, o, w, o', f);
  }

  lemma ReducedMultiplesCompare<P(!new)>(g: Group<P>, j: int, k: int, p: P, y: P, z: P)
    requires IsGroup(g) && Reduced(j, g.order) && Reduced(k, g.order) && y != g.zero
    requires Times(g, j, p) == y && Times(g, k, p) == z
    ensures y == z <==> j == k
  {
    TimesZeroPoint(g, j);
    TimesInjective(g, j, k, p);
    SmallResidue(j, g.order);
    SmallResidue(k, g.order);
  }

  /** Soundness of deduplication against any prover: in one election, two forks have the same nullifier exactly
      when the credentials extracted from them hold the same voter secret. */
  lemma ExtractedSecretsCompare<P(!new)>(
    lib: Library<P>, v: VoteProof<P>, o: Opened<P>, w: VoteProof<P>, o': Opened<P>, f: ForkCase<P>,
    v2: VoteProof<P>, o2: Opened<P>, w2: VoteProof<P>, o2': Opened<P>, f2: ForkCase<P>)
    requires IsGroup(lib.group) && ScalarsInjective(lib) && ParamsShape(lib) && v.nullifier != lib.group.zero
    requires VoteFork(lib, v, o, w, o') && VoteFork(lib, v2, o2, w2, o2') && o.hE == o2.hE
    requires f == ForkOf(lib, v, o, o') && f2 == ForkOf(lib, v2, o2, o2')
    ensures Fork(lib.group, f) && |f.params.h| == v.messageCount
    ensures Fork(lib.group, f2) && |f2.params.h| == v2.messageCount
    ensures v.nullifier == v2.nullifier
       <==> ExtractedMessages(lib.group, f)[VOTER_SECRET_MSG_INDEX]
            == ExtractedMessages(lib.group, f2)[VOTER_SECRET_MSG_INDEX]
  {
    ExtractedSecretIsReduced(lib, v, o, w, o', f);
    ExtractedSecretIsReduced(lib, v2, o2, w2, o2', f2);
    ReducedMultiplesCompare(lib.group, ExtractedMessages(lib.group, f)[VOTER_SECRET_MSG_INDEX],
                            ExtractedMessages(lib.group, f2)[VOTER_SECRET_MSG_INDEX], o.hE, v.nullifier, v2.nullifier);
  }

  // ---------------------------------------------------------------- completeness

  ghost predicate HonestInputs<P(!new)>(lib: Library<P>, claims: seq<bytes>, revealSet: set<nat>, coins: VoteCoins) {
    && Lawful(lib)
    && coins.bbs.r1 % lib.group.order != 0
    && 0 < |claims| == |coins.bbs.message| <= MAX_BBS_MESSAGES
    && VOTER_SECRET_MSG_INDEX !in revealSet
    && forall i :: i in revealSet ==> i < |claims|
  }

  /** The verifier decodes and recomputes exactly what the prover used. */
  lemma VerifierOpensHonest<P(!new)>(lib: Library<P>, claims: seq<bytes>, sig: Signature<P>, key: int, hE: P,
                                     revealSet: set<nat>, ctx: Context, coins: VoteCoins, v: VoteProof<P>)
    returns (pok: BbsProtocol<P>, o: Opened<P>)
    requires HonestInputs(lib, claims, revealSet, coins)
    requires lib.deserKey(ctx.issuerKey) == Some(key) && HashToG1(lib, ctx.electionId) == Ok(hE)
    requires Compose(lib, claims, sig, key, hE, revealSet, ctx, coins) == Ok(v)
    ensures
      var g, params, messages := lib.group, lib.deriveParams(|claims|), Messages(lib, claims);
      && Open(lib, v, ctx) == Ok(o)
      && InitProof(g, params, sig, messages, revealSet, SharedBlinding(coins)) == Ok(pok)
      && o.key == key && o.hE == hE && o.revealed == RevealedMessages(messages, revealSet)
      && o.bbs == FinishProof(g, pok, o.challenge)
      && o.dl == DlProof(Times(g, coins.r0, hE), Response(coins.r0, messages[0], o.challenge, g.order))
      && v.nullifier == BlindedMul(g, hE, messages[0], coins.mask) && v.messageCount == |claims|
  {
    var g, params, messages := lib.group, lib.deriveParams(|claims|), Messages(lib, claims);
    var nullifier := BlindedMul(g, hE, messages[0], coins.mask);
    pok := InitProof(g, params, sig, messages, revealSet, SharedBlinding(coins)).value;
    var revealed := RevealedMessages(messages, revealSet);
    var t := Times(g, coins.r0, hE);
    var c := lib.randomOracle(Transcript(lib, |claims|, key,
        BbsContribution(lib, pok.aPrime, pok.aBar, pok.d, pok.t1, pok.t2, revealed, params),
        DlContribution(lib, hE, nullifier, t), ctx, lib.serPoint(nullifier)));
    var bbs, dl := FinishProof(g, pok, c), DlProof(t, Response(coins.r0, messages[0], c, g.order));
    o := Opened(key, bbs, dl, revealed, hE, c);
    FinishedIsReadBack(lib, pok, c);
    assert DlAt(lib, dl);
    CollectMatchesProver(lib, claims, revealSet, 1);
  }

  /** The discrete-log proof of an honest prover verifies. */
  lemma HonestDl<P(!new)>(g: Group<P>, hE: P, m0: int, r0: int, challenge: int)
    requires IsGroup(g)
    ensures DlVerify(g, DlProof(Times(g, r0, hE), Response(r0, m0, challenge, g.order)), Times(g, m0, hE), hE,
                     challenge)
  {
    var proof := DlProof(Times(g, r0, hE), Response(r0, m0, challenge, g.order));
    MsmOne(g, hE, r0);
    MsmOne(g, hE, m0);
    HonestOpens(g, [hE], [r0], [m0], Times(g, m0, hE), challenge);
    assert Responses([r0], [m0], challenge, g.order) == [proof.response];
    DlOpens(g, proof, Times(g, m0, hE), hE, challenge);
  }

  /** The shared blinding makes the two responses for the voter secret equal. */
  lemma SharedResponse<P(!new)>(g: Group<P>, params: Params<P>, sig: Signature<P>, messages: seq<int>,
                                revealSet: set<nat>, coins: VoteCoins, challenge: int, pok: BbsProtocol<P>)
    requires IsGroup(g) && coins.bbs.r1 % g.order != 0 && 0 < |messages| == |coins.bbs.message|
    requires VOTER_SECRET_MSG_INDEX !in revealSet
    requires InitProof(g, params, sig, messages, revealSet, SharedBlinding(coins)) == Ok(pok)
    ensures GetResponse(FinishProof(g, pok, challenge), VOTER_SECRET_MSG_INDEX, revealSet)
         == Some(Response(coins.r0, messages[VOTER_SECRET_MSG_INDEX], challenge, g.order))
  {
    KeepAt(SharedBlinding(coins).message, revealSet, VOTER_SECRET_MSG_INDEX);
    KeepAt(messages, revealSet, VOTER_SECRET_MSG_INDEX);
    assert pok.blindings[0] == coins.r0 && pok.witnesses[0] == messages[0];
  }

  lemma HonestCheck<P(!new)>(lib: Library<P>, claims: seq<bytes>, sig: Signature<P>, revealSet: set<nat>,
                             coins: VoteCoins, v: VoteProof<P>, pok: BbsProtocol<P>, o: Opened<P>)
    requires HonestInputs(lib, claims, revealSet, coins)
    requires
      var g, params, messages := lib.group, lib.deriveParams(|claims|), Messages(lib, claims);
      && InitProof(g, params, sig, messages, revealSet, SharedBlinding(coins)) == Ok(pok)
      && o.revealed == RevealedMessages(messages, revealSet)
      && o.bbs == FinishProof(g, pok, o.challenge)
      && o.dl == DlProof(Times(g, coins.r0, o.hE), Response(coins.r0, messages[0], o.challenge, g.order))
      && v.nullifier == BlindedMul(g, o.hE, messages[0], coins.mask) && v.messageCount == |claims|
    ensures Check(lib, v, o).Ok?
       <==> SignatureVerifies(lib.group, lib.deriveParams(|claims|), o.key, sig, Messages(lib, claims))
  {
    var g, params, messages := lib.group, lib.deriveParams(|claims|), Messages(lib, claims);
    RevealedKeys(messages, revealSet);
    HonestProof(g, params, sig, messages, o.revealed, SharedBlinding(coins), o.challenge, o.key);
    BlindedMulIsTimes(g, o.hE, messages[0], coins.mask);
    HonestDl(g, o.hE, messages[0], coins.r0, o.challenge);
    SharedResponse(g, params, sig, messages, revealSet, coins, o.challenge, pok);
  }

  /** A vote proof that `prove_vote` returns verifies in its own context exactly when the credential's
      signature is valid on the claims under the issuer key it names: for every reveal list, chain, election,
      signal and choice of randomness. */
  lemma HonestVoteVerifies<P(!new)>(lib: Library<P>, claims: seq<bytes>, signature: bytes, shown: seq<nat>,
                                    ctx: Context, coins: VoteCoins, v: VoteProof<P>)
    requires Lawful(lib) && coins.bbs.r1 % lib.group.order != 0 && |coins.bbs.message| == |claims|
    requires ProveVote(lib, claims, signature, shown, ctx, coins) == Ok(v)
    ensures lib.deserSignature(signature).Some? && lib.deserKey(ctx.issuerKey).Some?
    ensures Verify(lib, v, ctx).Ok?
       <==> SignatureVerifies(lib.group, lib.deriveParams(|claims|), lib.deserKey(ctx.issuerKey).value,
                              lib.deserSignature(signature).value, Messages(lib, claims))
  {
    var revealSet := set i | i in shown;
    var sig, key := lib.deserSignature(signature).value, lib.deserKey(ctx.issuerKey).value;
    var hE := HashToG1(lib, ctx.electionId).value;
    var pok, o := VerifierOpensHonest(lib, claims, sig, key, hE, revealSet, ctx, coins, v);
    HonestCheck(lib, claims, sig, revealSet, coins, v, pok, o);
  }

  lemma ComposedShape<P(!new)>(lib: Library<P>, claims: seq<bytes>, sig: Signature<P>, key: int, hE: P,
                               revealSet: set<nat>, ctx: Context, coins: VoteCoins, v: VoteProof<P>)
    requires Prime(lib.group.order) && coins.bbs.r1 % lib.group.order != 0
    requires 0 < |claims| == |coins.bbs.message| <= MAX_BBS_MESSAGES
    requires Compose(lib, claims, sig, key, hE, revealSet, ctx, coins) == Ok(v)
    ensures v.messageCount == |claims| && v.nullifier != lib.group.zero
    ensures v.revealed == RevealedClaims(claims, revealSet)
    ensures v.nullifier == BlindedMul(lib.group, hE, Messages(lib, claims)[0], coins.mask)
  {
  }

  /** The public fields of a proof that `prove_vote` returns. */
  lemma ProvedShape<P(!new)>(lib: Library<P>, claims: seq<bytes>, signature: bytes, shown: seq<nat>, ctx: Context,
                             coins: VoteCoins, v: VoteProof<P>)
    requires Prime(lib.group.order) && coins.bbs.r1 % lib.group.order != 0 && |coins.bbs.message| == |claims|
    requires ProveVote(lib, claims, signature, shown, ctx, coins) == Ok(v)
    ensures 0 < |claims| <= MAX_BBS_MESSAGES && v.messageCount == |claims| && v.nullifier != lib.group.zero
    ensures VOTER_SECRET_MSG_INDEX !in shown && forall i :: i in shown ==> i < |claims|
    ensures v.revealed == RevealedClaims(claims, set i | i in shown)
    ensures HashToG1(lib, ctx.electionId).Ok?
    ensures v.nullifier
         == BlindedMul(lib.group, HashToG1(lib, ctx.electionId).value, Messages(lib, claims)[0], coins.mask)
  {
    var revealSet := set i | i in shown;
    assert forall i :: i in shown ==> i in revealSet;
    ComposedShape(lib, claims, lib.deserSignature(signature).value, lib.deserKey(ctx.issuerKey).value,
                  HashToG1(lib, ctx.electionId).value, revealSet, ctx, coins, v);
  }

  const DEGENERATE_CHALLENGE := Backend("degenerate challenge")

  /** The inputs that pass the guards of `prove_vote`. */
  ghost predicate Guarded<P>(lib: Library<P>, claims: seq<bytes>, signature: bytes, shown: seq<nat>, ctx: Context) {
    && 0 < |claims| <= MAX_BBS_MESSAGES
    && (forall i :: i in shown ==> VOTER_SECRET_MSG_INDEX < i < |claims|)
    && lib.deserSignature(signature).Some? && lib.deserKey(ctx.issuerKey).Some?
    && HashToG1(lib, ctx.electionId).Ok?
  }

  /** What a holder can check before proving: the guards, and that the nullifier is not the identity. */
  ghost predicate Provable<P>(lib: Library<P>, claims: seq<bytes>, signature: bytes, shown: seq<nat>, ctx: Context)
    requires lib.group.order > 0
  {
    && Guarded(lib, claims, signature, shown, ctx)
    && HashToG1(lib, ctx.electionId).value != lib.group.zero
    && ClaimToFr(lib, claims[VOTER_SECRET_MSG_INDEX]) != 0
  }

  ghost predicate NonZeroAt<P>(lib: Library<P>, b: bytes) { lib.randomOracle(b) != 0 }

  lemma NullifierIsIdentity<P(!new)>(g: Group<P>, hE: P, m0: int, mask: int)
    requires IsGroup(g) && Reduced(m0, g.order)
    ensures BlindedMul(g, hE, m0, mask) == g.zero <==> hE == g.zero || m0 == 0
  {
    BlindedMulIsTimes(g, hE, m0, mask);
    TimesZeroPoint(g, m0);
    SmallResidue(m0, g.order);
    if hE != g.zero {
      OnlyOrderAnnihilates(g, m0, hE);
    }
  }

  lemma ComposeSucceeds<P(!new)>(lib: Library<P>, claims: seq<bytes>, sig: Signature<P>, key: int, hE: P,
                                 revealSet: set<nat>, ctx: Context, coins: VoteCoins)
    requires IsGroup(lib.group) && ParamsShape(lib) && coins.bbs.r1 % lib.group.order != 0
    requires 0 < |claims| == |coins.bbs.message| <= MAX_BBS_MESSAGES
    ensures
      var r := Compose(lib, claims, sig, key, hE, revealSet, ctx, coins);
      && (r.Ok? || r == Err(DEGENERATE_CHALLENGE)
          <==> hE != lib.group.zero && ClaimToFr(lib, claims[VOTER_SECRET_MSG_INDEX]) != 0)
      && ((forall b :: NonZeroAt(lib, b)) ==> r != Err(DEGENERATE_CHALLENGE))
  {
    assert ParamsAt(lib, |claims|);
    NullifierIsIdentity(lib.group, hE, Messages(lib, claims)[VOTER_SECRET_MSG_INDEX], coins.mask);
    if forall b :: NonZeroAt(lib, b) {
      var g, params, messages := lib.group, lib.deriveParams(|claims|), Messages(lib, claims);
      var pok := InitProof(g, params, sig, messages, revealSet, SharedBlinding(coins)).value;
      var nullifier := BlindedMul(g, hE, messages[VOTER_SECRET_MSG_INDEX], coins.mask);
      var revealed := RevealedMessages(messages, revealSet);
      assert NonZeroAt(lib, Transcript(lib, |claims|, key,
          BbsContribution(lib, pok.aPrime, pok.aBar, pok.d, pok.t1, pok.t2, revealed, params),
          DlContribution(lib, hE, nullifier, Times(g, coins.r0, hE)), ctx, lib.serPoint(nullifier)));
    }
  }

  lemma GuardsPassed<P(!new)>(lib: Library<P>, claims: seq<bytes>, signature: bytes, shown: seq<nat>,
                              revealSet: set<nat>, ctx: Context)
    requires revealSet == set i | i in shown
    ensures
      var r := CheckInputs(lib, claims, signature, revealSet, ctx);
      && (r.Ok? <==> Guarded(lib, claims, signature, shown, ctx))
      && (r.Ok? ==> Ok(r.value.hE) == HashToG1(lib, ctx.electionId))
      && (r.Err? ==> r.error != DEGENERATE_CHALLENGE)
  {
    assert forall i: nat :: i in shown <==> i in revealSet;
    if CheckInputs(lib, claims, signature, revealSet, ctx).Ok? {
      forall i | i in shown ensures VOTER_SECRET_MSG_INDEX < i < |claims| {
        assert i in revealSet;
      }
    }
  }

  /** `prove_vote` succeeds exactly on provable inputs, but for the one challenge in the field that is zero. */
  lemma ProveVoteSucceeds<P(!new)>(lib: Library<P>, claims: seq<bytes>, signature: bytes, shown: seq<nat>, ctx: Context,
                                   coins: VoteCoins, r: Result<VoteProof<P>>)
    requires IsGroup(lib.group) && ParamsShape(lib)
    requires coins.bbs.r1 % lib.group.order != 0 && |coins.bbs.message| == |claims|
    requires r == ProveVote(lib, claims, signature, shown, ctx, coins)
    ensures r.Ok? || r == Err(DEGENERATE_CHALLENGE) <==> Provable(lib, claims, signature, shown, ctx)
    ensures (forall b :: NonZeroAt(lib, b)) ==> r != Err(DEGENERATE_CHALLENGE)
  {
    var revealSet := set i | i in shown;
    GuardsPassed(lib, claims, signature, shown, revealSet, ctx);
    var inputs := CheckInputs(lib, claims, signature, revealSet, ctx);
    if inputs.Ok? {
      ComposeSucceeds(lib, claims, inputs.value.sig, inputs.value.key, inputs.value.hE, revealSet, ctx, coins);
    }
  }

  /** What `prove_vote` returns survives the wire exactly when its byte fields fit their prefixes,
      and then the bytes verify as the proof does. */
  lemma HonestVoteEncodes<P(!new)>(lib: Library<P>, claims: seq<bytes>, signature: bytes, shown: seq<nat>, ctx: Context,
                                   coins: VoteCoins, v: VoteProof<P>)
    requires Lawful(lib) && coins.bbs.r1 % lib.group.order != 0 && |coins.bbs.message| == |claims|
    requires ProveVote(lib, claims, signature, shown, ctx, coins) == Ok(v)
    ensures forall i :: i in shown ==> i < |claims|
    ensures Decode(lib, Encode(lib, v)) == Ok(v)
       <==> Short(v.bbsProof) && Short(v.dlProof) && forall i :: i in shown ==> Short(claims[i])
    ensures Decode(lib, Encode(lib, v)) == Ok(v) ==> (VerifyVote(lib, Encode(lib, v), ctx) <==> Verify(lib, v, ctx).Ok?)
  {
    ProvedShape(lib, claims, signature, shown, ctx, coins, v);
    FitsTheWire(lib, claims, shown, v);
  }

  lemma FitsTheWire<P(!new)>(lib: Library<P>, claims: seq<bytes>, shown: seq<nat>, v: VoteProof<P>)
    requires PointsCanonical(lib)
    requires 0 < |claims| <= MAX_BBS_MESSAGES && v.messageCount == |claims| && v.nullifier != lib.group.zero
    requires VOTER_SECRET_MSG_INDEX !in shown && forall i :: i in shown ==> i < |claims|
    requires v.revealed == RevealedClaims(claims, set i | i in shown)
    ensures Decode(lib, Encode(lib, v)) == Ok(v)
       <==> Short(v.bbsProof) && Short(v.dlProof) && forall i :: i in shown ==> Short(claims[i])
  {
    var revealSet := set i | i in shown;
    EmittedIsDisciplined(claims, revealSet, BelowHidingFirst(|claims|));
    RoundTrip(lib, v);
  }

  lemma WellFormedPassesIndexChecks<P(!new)>(lib: Library<P>, es: seq<Entry>, count: nat)
    requires lib.group.order > 0 && count > 0 && Disciplined(es, BelowHidingFirst(count))
    ensures |es| < count
    ensures Collect(lib, es, VOTER_SECRET_MSG_INDEX + 1, count, map[]).Ok?
    ensures VOTER_SECRET_MSG_INDEX !in Collect(lib, es, VOTER_SECRET_MSG_INDEX + 1, count, map[]).value
  {
    DisciplinedFits(es, BelowHidingFirst(count));
    CollectDisciplined(lib, es, BelowHidingFirst(count), 1);
    CollectHides(lib, es, 1, count);
  }

  /** A decoded proof never fails the verifier's index or duplicate checks, and leaves the secret hidden. */
  lemma DecodedPassesIndexChecks<P(!new)>(lib: Library<P>, b: bytes, v: VoteProof<P>)
    requires lib.group.order > 0 && PointsCanonical(lib) && Decode(lib, b) == Ok(v)
    ensures 1 <= v.messageCount <= MAX_BBS_MESSAGES && v.nullifier != lib.group.zero && |v.revealed| < v.messageCount
    ensures Collect(lib, v.revealed, VOTER_SECRET_MSG_INDEX + 1, v.messageCount, map[]).Ok?
    ensures VOTER_SECRET_MSG_INDEX !in Collect(lib, v.revealed, VOTER_SECRET_MSG_INDEX + 1, v.messageCount, map[]).value
  {
    Canonical(lib, b, v);
    WellFormedPassesIndexChecks(lib, v.revealed, v.messageCount);
  }

  // ---------------------------------------------------------------- rewinding an honest prover

  lemma MessagesIgnoreOracle<P(!new)>(lib: Library<P>, lib': Library<P>, claims: seq<bytes>)
    requires lib.group.order > 0 && Reprogrammed(lib, lib')
    ensures Messages(lib', claims) == Messages(lib, claims)
    ensures forall i :: 0 <= i < |claims| ==> Reduced(Messages(lib, claims)[i], lib.group.order)
  {
  }

  /** The prover behind a call of `prove_vote`, as the extraction theorems see it. */
  ghost function ProverOf<P>(lib: Library<P>, claims: seq<bytes>, signature: bytes, shown: seq<nat>, coins: VoteCoins)
    : Prover<P>
    requires lib.group.order > 0 && lib.deserSignature(signature).Some? && |coins.bbs.message| > 0
  {
    var messages := Messages(lib, claims);
    Prover(lib.deriveParams(|claims|), lib.deserSignature(signature).value, messages,
           RevealedMessages(messages, set i | i in shown), SharedBlinding(coins))
  }

  /** What the verifier opens is that prover's answer to the challenge it computes. */
  lemma OpeningOfHonest<P(!new)>(lib: Library<P>, claims: seq<bytes>, signature: bytes, shown: seq<nat>, ctx: Context,
                                 coins: VoteCoins, v: VoteProof<P>)
    returns (o: Opened<P>)
    requires Lawful(lib) && coins.bbs.r1 % lib.group.order != 0 && |coins.bbs.message| == |claims|
    requires ProveVote(lib, claims, signature, shown, ctx, coins) == Ok(v)
    ensures Open(lib, v, ctx) == Ok(o) && lib.deserSignature(signature).Some? && |claims| > 0
    ensures
      var u := ProverOf(lib, claims, signature, shown, coins);
      && Honest(lib.group, u) && u.revealed == o.revealed && VOTER_SECRET_MSG_INDEX !in o.revealed
      && o.bbs == FinishProof(lib.group, Commitments(lib.group, u), o.challenge)
    ensures lib.deserKey(ctx.issuerKey) == Some(o.key) && HashToG1(lib, ctx.electionId) == Ok(o.hE)
    ensures o.dl.t == Times(lib.group, coins.r0, o.hE)
  {
    var revealSet := set i | i in shown;
    assert forall i :: i in shown ==> i in revealSet;
    var sig, key := lib.deserSignature(signature).value, lib.deserKey(ctx.issuerKey).value;
    var hE := HashToG1(lib, ctx.electionId).value;
    var pok;
    pok, o := VerifierOpensHonest(lib, claims, sig, key, hE, revealSet, ctx, coins, v);
    RevealedKeys(Messages(lib, claims), revealSet);
    MessagesIgnoreOracle(lib, lib, claims);
    assert ParamsAt(lib, |claims|);
  }

  /** Rewinding changes nothing but the challenge. */
  lemma RewoundProverIsTheSame<P(!new)>(lib: Library<P>, lib': Library<P>, claims: seq<bytes>, signature: bytes,
                                        shown: seq<nat>, coins: VoteCoins)
    requires lib.group.order > 0 && Reprogrammed(lib, lib')
    requires lib.deserSignature(signature).Some? && |coins.bbs.message| > 0
    ensures ProverOf(lib', claims, signature, shown, coins) == ProverOf(lib, claims, signature, shown, coins)
  {
    MessagesIgnoreOracle(lib, lib', claims);
  }

  lemma RewoundShape<P(!new)>(lib: Library<P>, lib': Library<P>, claims: seq<bytes>, signature: bytes, shown: seq<nat>,
                              ctx: Context, coins: VoteCoins, v: VoteProof<P>, w: VoteProof<P>)
    requires Prime(lib.group.order) && Reprogrammed(lib, lib')
    requires coins.bbs.r1 % lib.group.order != 0 && |coins.bbs.message| == |claims|
    requires ProveVote(lib, claims, signature, shown, ctx, coins) == Ok(v)
    requires ProveVote(lib', claims, signature, shown, ctx, coins) == Ok(w)
    ensures v.messageCount == w.messageCount == |claims| && v.nullifier == w.nullifier && v.revealed == w.revealed
  {
    ProvedShape(lib, claims, signature, shown, ctx, coins, v);
    ProvedShape(lib', claims, signature, shown, ctx, coins, w);
    MessagesIgnoreOracle(lib, lib', claims);
  }

  lemma RewoundVotesVerify<P(!new)>(lib: Library<P>, lib': Library<P>, claims: seq<bytes>, signature: bytes,
                                    shown: seq<nat>, ctx: Context, coins: VoteCoins, v: VoteProof<P>, w: VoteProof<P>)
    requires Lawful(lib) && Lawful(lib') && Reprogrammed(lib, lib')
    requires coins.bbs.r1 % lib.group.order != 0 && |coins.bbs.message| == |claims|
    requires ProveVote(lib, claims, signature, shown, ctx, coins) == Ok(v)
    requires ProveVote(lib', claims, signature, shown, ctx, coins) == Ok(w)
    ensures Verify(lib, v, ctx).Ok? <==> Verify(lib', w, ctx).Ok?
  {
    HonestVoteVerifies(lib, claims, signature, shown, ctx, coins, v);
    HonestVoteVerifies(lib', claims, signature, shown, ctx, coins, w);
    MessagesIgnoreOracle(lib, lib', claims);
  }

  lemma ChallengesDiffer<P(!new)>(lib: Library<P>, v: VoteProof<P>, a: Context, lib': Library<P>, w: VoteProof<P>,
                                  b: Context)
    requires Lawful(lib) && Lawful(lib') && Reprogrammed(lib, lib') && Open(lib, v, a).Ok? && Open(lib', w, b).Ok?
    requires Open(lib, v, a).value.challenge != Open(lib', w, b).value.challenge
    ensures (Open(lib, v, a).value.challenge - Open(lib', w, b).value.challenge) % lib.group.order != 0
  {
    var c, c' := Open(lib, v, a).value.challenge, Open(lib', w, b).value.challenge;
    OpenFacts(lib, v, a, Open(lib, v, a).value);
    OpenFacts(lib', w, b, Open(lib', w, b).value);
    if (c - c') % lib.group.order == 0 {
      ReducedCongruent(c, c', lib.group.order);
    }
  }

  /** Rewound to an oracle that asks it another question, an honest prover answers both from one set of
      commitments. */
  lemma RewoundAnswers<P(!new)>(
    lib: Library<P>, lib': Library<P>, claims: seq<bytes>, signature: bytes, shown: seq<nat>, ctx: Context,
    coins: VoteCoins, v: VoteProof<P>, w: VoteProof<P>)
    returns (u: Prover<P>, o: Opened<P>, o': Opened<P>)
    requires Lawful(lib) && Lawful(lib') && Reprogrammed(lib, lib')
    requires coins.bbs.r1 % lib.group.order != 0 && |coins.bbs.message| == |claims|
    requires ProveVote(lib, claims, signature, shown, ctx, coins) == Ok(v)
    requires ProveVote(lib', claims, signature, shown, ctx, coins) == Ok(w)
    ensures Open(lib, v, ctx) == Ok(o) && Open(lib', w, ctx) == Ok(o') && o.dl.t == o'.dl.t
    ensures VOTER_SECRET_MSG_INDEX !in o.revealed && u.revealed == o.revealed
    ensures Honest(lib.group, u) && u.params == lib.deriveParams(|claims|) && u.messages == Messages(lib, claims)
    ensures o.bbs == FinishProof(lib.group, Commitments(lib.group, u), o.challenge)
    ensures o'.bbs == FinishProof(lib.group, Commitments(lib.group, u), o'.challenge)
  {
    o := OpeningOfHonest(lib, claims, signature, shown, ctx, coins, v);
    o' := OpeningOfHonest(lib', claims, signature, shown, ctx, coins, w);
    u := ProverOf(lib, claims, signature, shown, coins);
    RewoundProverIsTheSame(lib, lib', claims, signature, shown, coins);
  }

  /** The extraction theorems are met by every honest prover with a valid credential: rewound, it forks ... */
  lemma RewoundProverForks<P(!new)>(
    lib: Library<P>, lib': Library<P>, claims: seq<bytes>, signature: bytes, shown: seq<nat>, ctx: Context,
    coins: VoteCoins, v: VoteProof<P>, w: VoteProof<P>)
    requires Lawful(lib) && Lawful(lib') && Reprogrammed(lib, lib')
    requires coins.bbs.r1 % lib.group.order != 0 && |coins.bbs.message| == |claims|
    requires ProveVote(lib, claims, signature, shown, ctx, coins) == Ok(v)
    requires ProveVote(lib', claims, signature, shown, ctx, coins) == Ok(w)
    requires Verify(lib, v, ctx).Ok? && Open(lib', w, ctx).Ok?
    requires Open(lib, v, ctx).value.challenge != Open(lib', w, ctx).value.challenge
    ensures VoteFork(lib, v, Open(lib, v, ctx).value, w, Open(lib', w, ctx).value)
  {
    var u, o, o' := RewoundAnswers(lib, lib', claims, signature, shown, ctx, coins, v, w);
    RewoundShape(lib, lib', claims, signature, shown, ctx, coins, v, w);
    RewoundVotesVerify(lib, lib', claims, signature, shown, ctx, coins, v, w);
    ChallengesDiffer(lib, v, ctx, lib', w, ctx);
    AcceptedProofsFork(lib, v, ctx, lib', w, ctx);
  }

  /** ... and what is extracted from slot 0 is its own voter secret. */
  lemma RewoundProverGivesUpItsSecret<P(!new)>(
    lib: Library<P>, lib': Library<P>, claims: seq<bytes>, signature: bytes, shown: seq<nat>, ctx: Context,
    coins: VoteCoins, v: VoteProof<P>, w: VoteProof<P>, f: ForkCase<P>)
    requires Lawful(lib) && Lawful(lib') && Reprogrammed(lib, lib')
    requires coins.bbs.r1 % lib.group.order != 0 && |coins.bbs.message| == |claims|
    requires ProveVote(lib, claims, signature, shown, ctx, coins) == Ok(v)
    requires ProveVote(lib', claims, signature, shown, ctx, coins) == Ok(w)
    requires Verify(lib, v, ctx).Ok? && Open(lib', w, ctx).Ok?
    requires Open(lib, v, ctx).value.challenge != Open(lib', w, ctx).value.challenge
    requires f == ForkOf(lib, v, Open(lib, v, ctx).value, Open(lib', w, ctx).value)
    ensures Fork(lib.group, f) && |f.params.h| == |claims| > 0
    ensures ExtractedMessages(lib.group, f)[VOTER_SECRET_MSG_INDEX] == ClaimToFr(lib, claims[VOTER_SECRET_MSG_INDEX])
  {
    var u, o, o' := RewoundAnswers(lib, lib', claims, signature, shown, ctx, coins, v, w);
    RewoundProverForks(lib, lib', claims, signature, shown, ctx, coins, v, w);
    RewoundShape(lib, lib', claims, signature, shown, ctx, coins, v, w);
    ChallengesDiffer(lib, v, ctx, lib', w, ctx);
    VoteForkIsFork(lib, v, o, w, o');
    HiddenRecovered(lib.group, u, f, VOTER_SECRET_MSG_INDEX);
  }

  // ---------------------------------------------------------------- the nullifier

  /** The nullifier of an honest proof depends on the voter secret and the election alone. */
  lemma NullifierOfHonestVote<P(!new)>(lib: Library<P>, claims: seq<bytes>, signature: bytes, shown: seq<nat>,
                                       ctx: Context, coins: VoteCoins, v: VoteProof<P>)
    requires Lawful(lib) && coins.bbs.r1 % lib.group.order != 0 && |coins.bbs.message| == |claims|
    requires ProveVote(lib, claims, signature, shown, ctx, coins) == Ok(v)
    ensures claims != [] && HashToG1(lib, ctx.electionId).Ok?
    ensures v.nullifier != lib.group.zero
    ensures v.nullifier
         == Times(lib.group, ClaimToFr(lib, claims[VOTER_SECRET_MSG_INDEX]), HashToG1(lib, ctx.electionId).value)
  {
    ProvedShape(lib, claims, signature, shown, ctx, coins, v);
    BlindedMulIsTimes(lib.group, HashToG1(lib, ctx.electionId).value, Messages(lib, claims)[0], coins.mask);
  }

  /** Two honest proofs in one election have the same nullifier exactly when their voter secrets are the same
      field element, whatever else differs between them. */
  lemma NullifiersCompare<P(!new)>(lib: Library<P>, claims: seq<bytes>, signature: bytes, shown: seq<nat>, ctx: Context,
                                   coins: VoteCoins, v: VoteProof<P>, claims': seq<bytes>, signature': bytes,
                                   shown': seq<nat>, ctx': Context, coins': VoteCoins, v': VoteProof<P>)
    requires Lawful(lib) && ctx.electionId == ctx'.electionId
    requires coins.bbs.r1 % lib.group.order != 0 && |coins.bbs.message| == |claims|
    requires coins'.bbs.r1 % lib.group.order != 0 && |coins'.bbs.message| == |claims'|
    requires ProveVote(lib, claims, signature, shown, ctx, coins) == Ok(v)
    requires ProveVote(lib, claims', signature', shown', ctx', coins') == Ok(v')
    ensures claims != [] && claims' != []
    ensures v.nullifier == v'.nullifier <==> ClaimToFr(lib, claims[0]) == ClaimToFr(lib, claims'[0])
  {
    NullifierOfHonestVote(lib, claims, signature, shown, ctx, coins, v);
    NullifierOfHonestVote(lib, claims', signature', shown', ctx', coins', v');
    var g, hE := lib.group, HashToG1(lib, ctx.electionId).value;
    var m, m' := ClaimToFr(lib, claims[0]), ClaimToFr(lib, claims'[0]);
    TimesZeroPoint(g, m);
    TimesInjective(g, m, m', hE);
    ResidueOfResidue(LittleValue(lib.sha256(claims[0])), g.order);
    ResidueOfResidue(LittleValue(lib.sha256(claims'[0])), g.order);
  }
}
