/** What the challenge of a vote proof binds: commitments, parameters and revealed claims; and what the nullifier
    binds: the voter secret and the election. */
module VoteBinding {
  import opened Wrappers
  import opened Bytes
  import opened PrimeGroup
  import opened Schnorr
  import opened BbsPlus
  import opened Crypto
  import opened ChallengeInputs
  import opened Revealed
  import opened RevealSet
  import opened Framing
  import opened VoteCodec
  import opened Vote
  import opened VoteTheorems

  // ---------------------------------------------------------------- guards

  lemma OpenFields<P(!new)>(lib: Library<P>, v: VoteProof<P>, ctx: Context, o: Opened<P>)
    requires lib.group.order > 0 && Open(lib, v, ctx) == Ok(o)
    ensures 1 <= v.messageCount <= MAX_BBS_MESSAGES && v.nullifier != lib.group.zero && o.challenge != 0
    ensures Collect(lib, v.revealed, VOTER_SECRET_MSG_INDEX + 1, v.messageCount, map[]) == Ok(o.revealed)
  {
  }

  /** What the verifier has checked once a proof is opened, on proofs decoded or not. */
  lemma OpenGuards<P(!new)>(lib: Library<P>, v: VoteProof<P>, ctx: Context, o: Opened<P>)
    requires lib.group.order > 0 && Open(lib, v, ctx) == Ok(o)
    ensures 1 <= v.messageCount <= MAX_BBS_MESSAGES && v.nullifier != lib.group.zero && o.challenge != 0
    ensures Collected(lib, v, o)
  {
    OpenFields(lib, v, ctx, o);
    RevealedCollected(lib, v, o);
  }

  /** The revealed part of an opened proof: distinct indices in range, none of them the voter secret, and the map
      they denote. */
  ghost predicate Collected<P>(lib: Library<P>, v: VoteProof<P>, o: Opened<P>)
    requires lib.group.order > 0
  {
    && Distinct(v.revealed) && Within(v.revealed, VOTER_SECRET_MSG_INDEX + 1, v.messageCount)
    && Denotes(lib, v.revealed, o.revealed) && MapReduced(lib, o.revealed)
    && forall i :: i in o.revealed ==> VOTER_SECRET_MSG_INDEX < i < v.messageCount
  }

  lemma RevealedCollected<P(!new)>(lib: Library<P>, v: VoteProof<P>, o: Opened<P>)
    requires lib.group.order > 0
    requires Collect(lib, v.revealed, VOTER_SECRET_MSG_INDEX + 1, v.messageCount, map[]) == Ok(o.revealed)
    ensures Collected(lib, v, o)
  {
    CollectExactly(lib, v.revealed, VOTER_SECRET_MSG_INDEX + 1, v.messageCount);
    CollectStaysWithin(lib, v.revealed, VOTER_SECRET_MSG_INDEX + 1, v.messageCount, map[]);
  }

  // ---------------------------------------------------------------- one transcript, one statement

  /** What two proofs with one transcript agree on. */
  ghost predicate SameStatement<P>(lib: Library<P>, v: VoteProof<P>, o: Opened<P>, w: VoteProof<P>, o': Opened<P>) {
    && v.messageCount == w.messageCount && o.key == o'.key
    && SameCommitments(o.bbs, o'.bbs) && SameShown(lib, v.messageCount, o.revealed, o'.revealed)
    && v.nullifier == w.nullifier && o.hE == o'.hE && o.dl.t == o'.dl.t
  }

  /** The five fields that a vote transcript frames, as the verifier computes them. */
  ghost function BbsPart<P>(lib: Library<P>, v: VoteProof<P>, o: Opened<P>): bytes {
    BbsContribution(lib, o.bbs.aPrime, o.bbs.aBar, o.bbs.d, o.bbs.first.t, o.bbs.t2, o.revealed,
                    lib.deriveParams(v.messageCount))
  }

  ghost function DlPart<P>(lib: Library<P>, v: VoteProof<P>, o: Opened<P>): bytes {
    DlContribution(lib, o.hE, v.nullifier, o.dl.t)
  }

  lemma TranscriptFields<P(!new)>(lib: Library<P>, v: VoteProof<P>, ctx: Context, o: Opened<P>)
    requires Lawful(lib) && Open(lib, v, ctx) == Ok(o)
    ensures TranscriptIn(lib, v, ctx)
         == VoteTranscript(v.messageCount, lib.serKey(o.key), BbsPart(lib, v, o), DlPart(lib, v, o),
                           lib.sha256(BindPreimageIn(lib, v, ctx)))
    ensures Short(lib.serKey(o.key)) && Short(BbsPart(lib, v, o)) && Short(DlPart(lib, v, o))
  {
    OpenFacts(lib, v, ctx, o);
    OpenGuards(lib, v, ctx, o);
    assert KeyWidthAt(lib, o.key) && ParamsAt(lib, v.messageCount);
    BbsContributionIsShort(lib, o.bbs.aPrime, o.bbs.aBar, o.bbs.d, o.bbs.first.t, o.bbs.t2, o.revealed,
                           lib.deriveParams(v.messageCount));
    DlContributionInjective(lib, o.hE, v.nullifier, o.dl.t, o.hE, v.nullifier, o.dl.t);
  }

  lemma FieldsBind<P(!new)>(lib: Library<P>, v: VoteProof<P>, a: Context, o: Opened<P>, w: VoteProof<P>, b: Context,
                            o': Opened<P>)
    requires Lawful(lib) && Open(lib, v, a) == Ok(o) && Open(lib, w, b) == Ok(o') && v.messageCount == w.messageCount
    requires lib.serKey(o.key) == lib.serKey(o'.key)
    requires BbsPart(lib, v, o) == BbsPart(lib, w, o') && DlPart(lib, v, o) == DlPart(lib, w, o')
    ensures SameStatement(lib, v, o, w, o')
  {
    OpenFacts(lib, v, a, o);
    OpenFacts(lib, w, b, o');
    OpenGuards(lib, v, a, o);
    OpenGuards(lib, w, b, o');
    assert KeyAt(lib, o.key) && KeyAt(lib, o'.key);
    ContributionsBind(lib, v.messageCount, o.bbs, o.revealed, o'.bbs, o'.revealed);
    DlContributionInjective(lib, o.hE, v.nullifier, o.dl.t, o'.hE, w.nullifier, o'.dl.t);
  }

  /** Any two opened proofs, in any contexts: equal transcripts have one message count, one issuer key, one set of
      commitments, the same revealed scalars but for a clash, one nullifier and generator, and one binding. */
  lemma TranscriptDeterminesStatement<P(!new)>(lib: Library<P>, v: VoteProof<P>, a: Context, o: Opened<P>,
                                               w: VoteProof<P>, b: Context, o': Opened<P>)
    requires Lawful(lib) && Open(lib, v, a) == Ok(o) && Open(lib, w, b) == Ok(o')
    requires TranscriptIn(lib, v, a) == TranscriptIn(lib, w, b)
    ensures SameStatement(lib, v, o, w, o')
    ensures lib.sha256(BindPreimageIn(lib, v, a)) == lib.sha256(BindPreimageIn(lib, w, b))
  {
    TranscriptFields(lib, v, a, o);
    TranscriptFields(lib, w, b, o');
    VoteTranscriptInjective(
      v.messageCount, lib.serKey(o.key), BbsPart(lib, v, o), DlPart(lib, v, o), lib.sha256(BindPreimageIn(lib, v, a)),
      w.messageCount, lib.serKey(o'.key), BbsPart(lib, w, o'), DlPart(lib, w, o'),
      lib.sha256(BindPreimageIn(lib, w, b)));
    FieldsBind(lib, v, a, o, w, b, o');
  }

  /** One challenge, one statement: or two transcripts with one random-oracle value are exhibited. */
  lemma OneChallengeOneStatement<P(!new)>(lib: Library<P>, v: VoteProof<P>, a: Context, o: Opened<P>, w: VoteProof<P>,
                                          b: Context, o': Opened<P>)
    requires Lawful(lib) && Open(lib, v, a) == Ok(o) && Open(lib, w, b) == Ok(o') && o.challenge == o'.challenge
    ensures SameStatement(lib, v, o, w, o')
         || Collision(lib.randomOracle, TranscriptIn(lib, v, a), TranscriptIn(lib, w, b))
  {
    OpenFacts(lib, v, a, o);
    OpenFacts(lib, w, b, o');
    if TranscriptIn(lib, v, a) == TranscriptIn(lib, w, b) {
      TranscriptDeterminesStatement(lib, v, a, o, w, b, o');
    }
  }

  // ---------------------------------------------------------------- one proof, one list of revealed claims

  lemma OneProofOneChallenge<P(!new)>(lib: Library<P>, v: VoteProof<P>, a: Context, o: Opened<P>, w: VoteProof<P>,
                                      b: Context, o': Opened<P>)
    requires Lawful(lib) && v.messageCount == w.messageCount && v.bbsProof == w.bbsProof
    requires Open(lib, v, a) == Ok(o) && Open(lib, w, b) == Ok(o')
    requires Check(lib, v, o).Ok? && Check(lib, w, o').Ok?
    ensures o.challenge == o'.challenge || o.bbs.aBar == o.bbs.d
  {
    OpenFacts(lib, v, a, o);
    OpenFacts(lib, w, b, o');
    OneAnswer(lib.group, lib.deriveParams(v.messageCount), o.bbs, o.revealed, o.key, o.challenge,
              o'.revealed, o'.key, o'.challenge);
  }

  /** The revealed claims cannot be exchanged under an accepted BBS+ proof, in any contexts and with anything else
      attached: they are the same but for confusable claims, or the proof's first statement is the identity, or a
      clash or two transcripts with one random-oracle value are exhibited. */
  lemma OneProofOneRevealedList<P(!new)>(lib: Library<P>, v: VoteProof<P>, a: Context, w: VoteProof<P>, b: Context)
    requires Lawful(lib) && v.messageCount == w.messageCount && v.bbsProof == w.bbsProof
    requires Verify(lib, v, a).Ok? && Verify(lib, w, b).Ok?
    ensures Open(lib, v, a).Ok? && Open(lib, w, b).Ok?
    ensures
      var o, o', h := Open(lib, v, a).value, Open(lib, w, b).value, lib.deriveParams(v.messageCount).h;
      || SameRevealed(lib, v.revealed, w.revealed)
      || o.bbs.aBar == o.bbs.d
      || Clash(lib, h, o.revealed) || Clash(lib, h, o'.revealed)
      || Collision(lib.randomOracle, TranscriptIn(lib, v, a), TranscriptIn(lib, w, b))
  {
    var o, o' := Open(lib, v, a).value, Open(lib, w, b).value;
    OneProofOneChallenge(lib, v, a, o, w, b, o');
    if o.challenge == o'.challenge {
      OneChallengeOneStatement(lib, v, a, o, w, b, o');
      if o.revealed == o'.revealed {
        OpenGuards(lib, v, a, o);
        OpenGuards(lib, w, b, o');
        OneMapOneClaims(lib, v.revealed, w.revealed, o.revealed);
      }
    }
  }

  // ---------------------------------------------------------------- one generator, one election

  /** Two elections whose external nullifiers, or whose generators, collide. */
  ghost predicate ElectionCollision<P>(lib: Library<P>, e: bytes, e': bytes) {
    var x, x' := ExternalNullifierPreimage(e), ExternalNullifierPreimage(e');
    Collision(lib.sha256, x, x') || Collision(lib.hashToCurve, lib.sha256(x), lib.sha256(x'))
  }

  /** Elections with one generator are one election, or exhibit a collision. */
  lemma OneGeneratorOneElection<P(!new)>(lib: Library<P>, e: bytes, e': bytes)
    requires Addressable(e) && Addressable(e')
    requires HashToG1(lib, e).Ok? && HashToG1(lib, e) == HashToG1(lib, e')
    ensures e == e' || ElectionCollision(lib, e, e')
  {
    if ExternalNullifierPreimage(e) == ExternalNullifierPreimage(e') {
      ExternalNullifierPreimageInjective(e, e');
    }
  }

  /** A voter's nullifiers tell elections apart: one voter secret with one nullifier in two contexts voted in one
      election, or a collision is exhibited. */
  lemma OneNullifierOneElection<P(!new)>(
    lib: Library<P>, claims: seq<bytes>, signature: bytes, shown: seq<nat>, ctx: Context, coins: VoteCoins,
    v: VoteProof<P>, claims': seq<bytes>, signature': bytes, shown': seq<nat>, ctx': Context, coins': VoteCoins,
    v': VoteProof<P>)
    requires Lawful(lib) && Addressable(ctx.electionId) && Addressable(ctx'.electionId)
    requires coins.bbs.r1 % lib.group.order != 0 && |coins.bbs.message| == |claims|
    requires coins'.bbs.r1 % lib.group.order != 0 && |coins'.bbs.message| == |claims'|
    requires ProveVote(lib, claims, signature, shown, ctx, coins) == Ok(v)
    requires ProveVote(lib, claims', signature', shown', ctx', coins') == Ok(v')
    requires |claims| > 0 && |claims'| > 0 && claims[VOTER_SECRET_MSG_INDEX] == claims'[VOTER_SECRET_MSG_INDEX]
    requires v.nullifier == v'.nullifier
    ensures ctx.electionId == ctx'.electionId || ElectionCollision(lib, ctx.electionId, ctx'.electionId)
  {
    NullifierOfHonestVote(lib, claims, signature, shown, ctx, coins, v);
    NullifierOfHonestVote(lib, claims', signature', shown', ctx', coins', v');
    OneMultipleOneBase(lib.group, ClaimToFr(lib, claims[VOTER_SECRET_MSG_INDEX]),
                       HashToG1(lib, ctx.electionId).value, HashToG1(lib, ctx'.electionId).value);
    OneGeneratorOneElection(lib, ctx.electionId, ctx'.electionId);
  }

  lemma OneMultipleOneBase<P(!new)>(g: Group<P>, k: int, p: P, q: P)
    requires IsGroup(g) && Times(g, k, p) == Times(g, k, q) != g.zero
    ensures p == q
  {
    if k % g.order != 0 {
      TimesCancel(g, k, p, q);
    }
  }

  /** The same against any prover: accepted votes with one nullifier, whose extracted credentials hold one voter
      secret, were cast in one election, or a collision is exhibited. */
  lemma OneExtractedSecretOneElection<P(!new)>(
    lib: Library<P>, v: VoteProof<P>, o: Opened<P>, w: VoteProof<P>, o': Opened<P>, f: ForkCase<P>, e: bytes,
    v2: VoteProof<P>, o2: Opened<P>, w2: VoteProof<P>, o2': Opened<P>, f2: ForkCase<P>, e2: bytes)
    requires IsGroup(lib.group) && ScalarsInjective(lib) && ParamsShape(lib) && v.nullifier != lib.group.zero
    requires VoteFork(lib, v, o, w, o') && VoteFork(lib, v2, o2, w2, o2') && v.nullifier == v2.nullifier
    requires f == ForkOf(lib, v, o, o') && f2 == ForkOf(lib, v2, o2, o2')
    requires Addressable(e) && Addressable(e2) && HashToG1(lib, e) == Ok(o.hE) && HashToG1(lib, e2) == Ok(o2.hE)
    ensures Fork(lib.group, f) && |f.params.h| == v.messageCount
    ensures Fork(lib.group, f2) && |f2.params.h| == v2.messageCount
    ensures ExtractedMessages(lib.group, f)[VOTER_SECRET_MSG_INDEX]
         == ExtractedMessages(lib.group, f2)[VOTER_SECRET_MSG_INDEX]
        ==> e == e2 || ElectionCollision(lib, e, e2)
  {
    ExtractedSecretIsReduced(lib, v, o, w, o', f);
    ExtractedSecretIsReduced(lib, v2, o2, w2, o2', f2);
    var k := ExtractedMessages(lib.group, f)[VOTER_SECRET_MSG_INDEX];
    if k == ExtractedMessages(lib.group, f2)[VOTER_SECRET_MSG_INDEX] {
      OneMultipleOneBase(lib.group, k, o.hE, o2.hE);
      OneGeneratorOneElection(lib, e, e2);
    }
  }

  /** Two honest proofs in one election have one nullifier exactly when the bytes of their voter secrets are equal
      or confusable. */
  lemma NullifiersCompareSecrets<P(!new)>(
    lib: Library<P>, claims: seq<bytes>, signature: bytes, shown: seq<nat>, ctx: Context, coins: VoteCoins,
    v: VoteProof<P>, claims': seq<bytes>, signature': bytes, shown': seq<nat>, ctx': Context, coins': VoteCoins,
    v': VoteProof<P>)
    requires Lawful(lib) && ctx.electionId == ctx'.electionId
    requires coins.bbs.r1 % lib.group.order != 0 && |coins.bbs.message| == |claims|
    requires coins'.bbs.r1 % lib.group.order != 0 && |coins'.bbs.message| == |claims'|
    requires ProveVote(lib, claims, signature, shown, ctx, coins) == Ok(v)
    requires ProveVote(lib, claims', signature', shown', ctx', coins') == Ok(v')
    ensures claims != [] && claims' != []
    ensures v.nullifier == v'.nullifier <==> claims[0] == claims'[0] || Confusable(lib, claims[0], claims'[0])
  {
    NullifiersCompare(lib, claims, signature, shown, ctx, coins, v, claims', signature', shown', ctx', coins', v');
    ClaimsCompare(lib, claims[0], claims'[0]);
  }

  // ---------------------------------------------------------------- the serialised form

  /** `verify_vote` on all bytes whatever: it accepts exactly the encodings of well-formed proofs that verify, and
      so fails closed on everything else. */
  lemma VerifyVoteExactly<P(!new)>(lib: Library<P>, b: bytes, ctx: Context)
    requires lib.group.order > 0 && PointsCanonical(lib)
    ensures VerifyVote(lib, b, ctx)
       <==> exists v :: WellFormed(lib, v) && Encode(lib, v) == b && Verify(lib, v, ctx).Ok?
  {
    if Decode(lib, b).Ok? {
      Canonical(lib, b, Decode(lib, b).value);
    }
    if v :| WellFormed(lib, v) && Encode(lib, v) == b && Verify(lib, v, ctx).Ok? {
      RoundTrip(lib, v);
    }
  }

  /** Nothing can be appended to accepted bytes. */
  lemma VerifyVotePrefixFree<P(!new)>(lib: Library<P>, b: bytes, x: bytes, a: Context, ctx: Context)
    requires lib.group.order > 0 && VerifyVote(lib, b, a) && x != []
    ensures !VerifyVote(lib, b + x, ctx)
  {
    PrefixFree(lib, b, x);
  }
}
