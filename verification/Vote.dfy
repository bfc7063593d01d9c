/** The composed anonymous-vote proof: a BBS+ proof with the voter secret hidden and a discrete-log proof
    of the nullifier, under one Fiat-Shamir challenge and tied together by equal responses. */
module Vote {
  import opened Wrappers
  import opened Bytes
  import opened PrimeGroup
  import opened Schnorr
  import opened BbsPlus
  import opened Crypto
  import opened ChallengeInputs
  import opened Revealed
  import opened RevealSet
  import opened Framing
  import opened VoteCodec

  const VOTER_SECRET_MSG_INDEX: nat := 0

  /** What a ballot is bound to. */
  datatype Context = Context(issuerKey: bytes, chainId: bytes, electionId: bytes, signal: bytes)

  /** The prover's random draws: the shared blinding r0, the mask of the nullifier and the BBS+ coins. */
  datatype VoteCoins = VoteCoins(r0: int, mask: int, bbs: Coins)

  // ---------------------------------------------------------------- nullifier

  /** The per-election generator. */
  function HashToG1<P>(lib: Library<P>, electionId: bytes): Result<P> {
    OkOr(lib.hashToCurve(lib.sha256(ExternalNullifierPreimage(electionId))), Backend("h2c hash"))
  }

  /** Scalar multiplication through a masked exponent, both exponents reduced before use. */
  function BlindedMul<P>(g: Group<P>, base: P, scalar: int, mask: int): P
    requires g.order > 0
  {
    Sub(g, Mul(g, (scalar + mask) % g.order, base), Mul(g, mask % g.order, base))
  }

  /** The mask cancels for every scalar and every mask, also when their sum wraps around the modulus. */
  lemma BlindedMulIsTimes<P(!new)>(g: Group<P>, base: P, scalar: int, mask: int)
    requires IsGroup(g)
    ensures BlindedMul(g, base, scalar, mask) == Times(g, scalar, base)
  {
    TimesSub(g, scalar + mask, mask, base);
    assert scalar + mask - mask == scalar;
  }

  // ---------------------------------------------------------------- challenge

  /** The ballot binding folded into the transcript. */
  function Binding<P>(lib: Library<P>, ctx: Context, nullifierBytes: bytes): bytes {
    lib.sha256(BindPreimage(ctx.chainId, ctx.electionId, nullifierBytes, ctx.signal))
  }

  function Transcript<P>(lib: Library<P>, messageCount: nat, key: int, bbs: bytes, dl: bytes, ctx: Context,
                         nullifierBytes: bytes): bytes {
    VoteTranscript(messageCount, lib.serKey(key), bbs, dl, Binding(lib, ctx, nullifierBytes))
  }

  function ComputeChallenge<P>(lib: Library<P>, transcript: bytes): Result<int> {
    var c := lib.randomOracle(transcript);
    if c == 0 then Err(Backend("degenerate challenge")) else Ok(c)
  }

  // ---------------------------------------------------------------- verifier

  /** What the verifier has decoded and recomputed before it checks anything. */
  datatype Opened<P> = Opened(key: int, bbs: BbsProof<P>, dl: DlProof<P>, revealed: map<nat, int>, hE: P,
                              challenge: int)

  function VerifierTranscript<P>(lib: Library<P>, v: VoteProof<P>, ctx: Context, key: int, bbs: BbsProof<P>,
                                 dl: DlProof<P>, revealed: map<nat, int>, hE: P): bytes {
    Transcript(lib, v.messageCount, key,
               BbsContribution(lib, bbs.aPrime, bbs.aBar, bbs.d, bbs.first.t, bbs.t2, revealed,
                               lib.deriveParams(v.messageCount)),
               DlContribution(lib, hE, v.nullifier, dl.t),
               ctx, lib.serPoint(v.nullifier))
  }

  function Open<P(==)>(lib: Library<P>, v: VoteProof<P>, ctx: Context): Result<Opened<P>>
    requires lib.group.order > 0
  {
    if v.messageCount == 0 || v.messageCount > MAX_BBS_MESSAGES then Err(InvalidInput("message_count out of range"))
    else if v.nullifier == lib.group.zero then Err(InvalidInput("nullifier is identity"))
    else
      var key :- OkOr(lib.deserKey(ctx.issuerKey), InvalidInput("bbs deserialize"));
      var bbs :- OkOr(lib.deserBbs(v.bbsProof), InvalidInput("bbs deserialize"));
      var dl :- OkOr(lib.deserDl(v.dlProof), InvalidInput("bbs deserialize"));
      var revealed :- Collect(lib, v.revealed, VOTER_SECRET_MSG_INDEX + 1, v.messageCount, map[]);
      var hE :- HashToG1(lib, ctx.electionId);
      var challenge :- ComputeChallenge(lib, VerifierTranscript(lib, v, ctx, key, bbs, dl, revealed, hE));
      Ok(Opened(key, bbs, dl, revealed, hE, challenge))
  }

  function Check<P(==)>(lib: Library<P>, v: VoteProof<P>, o: Opened<P>): Result<()>
    requires lib.group.order > 0
  {
    var params := lib.deriveParams(v.messageCount);
    if !VerifyProof(lib.group, o.bbs, o.revealed, o.challenge, o.key, params) then Err(VerificationFailed)
    else if !DlVerify(lib.group, o.dl, v.nullifier, o.hE, o.challenge) then Err(VerificationFailed)
    else
      var response :- OkOr(GetResponse(o.bbs, VOTER_SECRET_MSG_INDEX, o.revealed.Keys), VerificationFailed);
      if lib.serScalar(response) != lib.serScalar(o.dl.response) then Err(VerificationFailed) else Ok(())
  }

  /** Verification of a decoded vote proof. */
  function Verify<P(==)>(lib: Library<P>, v: VoteProof<P>, ctx: Context): Result<()>
    requires lib.group.order > 0
  {
    var o :- Open(lib, v, ctx);
    Check(lib, v, o)
  }

  /** Verification of a serialised vote proof. */
  predicate VerifyVote<P(==)>(lib: Library<P>, b: bytes, ctx: Context)
    requires lib.group.order > 0
  {
    Decode(lib, b).Ok? && Verify(lib, Decode(lib, b).value, ctx).Ok?
  }

  /** `vote_transcript`: the fields appended one after another. */
  method BuildTranscript<P>(lib: Library<P>, messageCount: nat, issuerKey: bytes, bbs: bytes, dl: bytes, ctx: Context,
                            nullifierBytes: bytes)
    returns (transcript: bytes)
    ensures transcript == VoteTranscript(messageCount, issuerKey, bbs, dl, Binding(lib, ctx, nullifierBytes))
  {
    var binding := BindContext(lib.sha256, ctx.chainId, ctx.electionId, nullifierBytes, ctx.signal);
    transcript := PutBytes([], VOTE_CHALLENGE_DOMAIN);
    transcript := transcript + BigEndian(messageCount, 4);
    transcript := PutBytes(transcript, issuerKey);
    transcript := PutBytes(transcript, bbs);
    transcript := PutBytes(transcript, dl);
    transcript := PutBytes(transcript, binding);
    Reassociate(Frame(4, VOTE_CHALLENGE_DOMAIN), BigEndian(messageCount, 4), Frame(4, issuerKey), Frame(4, bbs),
                Frame(4, dl), Frame(4, binding));
    assert [] + Frame(4, VOTE_CHALLENGE_DOMAIN) == Frame(4, VOTE_CHALLENGE_DOMAIN);
    assert Frame(4, binding) + [] == Frame(4, binding);
  }

  /** `verify_inner`, with its loop over the revealed claims. */
  method VerifyInner<P(==)>(lib: Library<P>, v: VoteProof<P>, ctx: Context) returns (result: Result<()>)
    requires lib.group.order > 0
    ensures result == Verify(lib, v, ctx)
  {
    if v.messageCount == 0 || v.messageCount > MAX_BBS_MESSAGES {
      return Err(InvalidInput("message_count out of range"));
    }
    if v.nullifier == lib.group.zero {
      return Err(InvalidInput("nullifier is identity"));
    }
    var params := lib.deriveParams(v.messageCount);
    var key := lib.deserKey(ctx.issuerKey);
    var bbs := lib.deserBbs(v.bbsProof);
    var dl := lib.deserDl(v.dlProof);
    if key.None? || bbs.None? || dl.None? {
      return Err(InvalidInput("bbs deserialize"));
    }
    var revealed := CollectLoop(lib, v.revealed, VOTER_SECRET_MSG_INDEX + 1, v.messageCount);
    if revealed.Err? {
      return Err(revealed.error);
    }
    var tag := ExternalNullifier(lib.sha256, ctx.electionId);
    var hE := lib.hashToCurve(tag);
    if hE.None? {
      return Err(Backend("h2c hash"));
    }
    var p := bbs.value;
    var transcript := BuildTranscript(
      lib, v.messageCount, lib.serKey(key.value),
      BbsContribution(lib, p.aPrime, p.aBar, p.d, p.first.t, p.t2, revealed.value, params),
      DlContribution(lib, hE.value, v.nullifier, dl.value.t),
      ctx, lib.serPoint(v.nullifier));
    var challenge := ComputeChallenge(lib, transcript);
    if challenge.Err? {
      return Err(challenge.error);
    }
    result := Check(lib, v, Opened(key.value, p, dl.value, revealed.value, hE.value, challenge.value));
  }

  // ---------------------------------------------------------------- prover

  /** What the prover has decoded once its guards are passed. */
  datatype ProverInputs<P> = ProverInputs(sig: Signature<P>, key: int, hE: P)

  /** The guards of `prove_vote`, in order. */
  function CheckInputs<P>(lib: Library<P>, claims: seq<bytes>, signature: bytes, revealSet: set<nat>, ctx: Context)
    : Result<ProverInputs<P>> {
    if claims == [] then Err(InvalidInput("no claims"))
    else if |claims| > MAX_BBS_MESSAGES then Err(InvalidInput("message_count out of range"))
    else if exists i :: i in revealSet && i >= |claims| then Err(InvalidInput("reveal index out of range"))
    else if VOTER_SECRET_MSG_INDEX in revealSet then Err(InvalidInput("voter secret cannot be revealed"))
    else
      var sig :- OkOr(lib.deserSignature(signature), InvalidInput("bbs deserialize"));
      var key :- OkOr(lib.deserKey(ctx.issuerKey), InvalidInput("bbs deserialize"));
      var hE :- HashToG1(lib, ctx.electionId);
      Ok(ProverInputs(sig, key, hE))
  }

  /** `prove_vote`: its guards, then the composed proof. */
  function ProveVote<P(==)>(lib: Library<P>, claims: seq<bytes>, signature: bytes, shown: seq<nat>, ctx: Context,
                            coins: VoteCoins): Result<VoteProof<P>>
    requires Prime(lib.group.order) && coins.bbs.r1 % lib.group.order != 0 && |coins.bbs.message| == |claims|
  {
    var revealSet := set i | i in shown;
    var inputs :- CheckInputs(lib, claims, signature, revealSet, ctx);
    Compose(lib, claims, inputs.sig, inputs.key, inputs.hE, revealSet, ctx, coins)
  }

  function Compose<P(==)>(lib: Library<P>, claims: seq<bytes>, sig: Signature<P>, key: int, hE: P, revealSet: set<nat>,
                          ctx: Context, coins: VoteCoins)
    : Result<VoteProof<P>>
    requires Prime(lib.group.order) && coins.bbs.r1 % lib.group.order != 0
    requires 0 < |claims| == |coins.bbs.message| <= MAX_BBS_MESSAGES
  {
    var g, params, messages := lib.group, lib.deriveParams(|claims|), Messages(lib, claims);
    var m0 := messages[VOTER_SECRET_MSG_INDEX];
    var nullifier := BlindedMul(g, hE, m0, coins.mask);
    if nullifier == g.zero then Err(InvalidInput("nullifier is identity"))
    else
      var pok :- InitProof(g, params, sig, messages, revealSet, SharedBlinding(coins));
      var revealed := RevealedMessages(messages, revealSet);
      var t := Times(g, coins.r0, hE);
      var challenge :- ComputeChallenge(lib,
        Transcript(lib, |claims|, key,
                   BbsContribution(lib, pok.aPrime, pok.aBar, pok.d, pok.t1, pok.t2, revealed, params),
                   DlContribution(lib, hE, nullifier, t),
                   ctx, lib.serPoint(nullifier)));
      Ok(VoteProof(
           |claims|,
           RevealedClaims(claims, revealSet),
           lib.serBbs(FinishProof(g, pok, challenge)),
           lib.serDl(DlProof(t, Response(coins.r0, m0, challenge, g.order))),
           nullifier))
  }

  /** The BBS+ coins with r0 as the blinding of the voter secret. */
  function SharedBlinding(coins: VoteCoins): (c: Coins)
    requires |coins.bbs.message| > 0
    ensures |c.message| == |coins.bbs.message| && c.r1 == coins.bbs.r1
  {
    coins.bbs.(message := coins.bbs.message[VOTER_SECRET_MSG_INDEX := coins.r0])
  }
}
