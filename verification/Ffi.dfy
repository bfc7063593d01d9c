/** The C boundary of the vote verifier, and what a chain that stores its keys can rely on. */
module Ffi {
  import opened Wrappers
  import opened Bytes
  import opened PrimeGroup
  import opened BbsPlus
  import opened Crypto
  import opened Framing
  import opened VoteCodec
  import opened Vote
  import opened VoteTheorems
  import opened Tally

  /** The arguments of one call; an absent field is a null pointer with a non-zero length. */
  datatype Call = Call(
    proof: Option<bytes>, publicKey: Option<bytes>, chainId: Option<bytes>, electionId: Option<bytes>,
    nullifier: Option<bytes>, signal: Option<bytes>)

  ghost predicate Complete(c: Call) {
    c.proof.Some? && c.publicKey.Some? && c.chainId.Some? && c.electionId.Some? && c.nullifier.Some? && c.signal.Some?
  }

  function ContextOf(c: Call): Context
    requires c.publicKey.Some? && c.chainId.Some? && c.electionId.Some? && c.signal.Some?
  {
    Context(c.publicKey.value, c.chainId.value, c.electionId.value, c.signal.value)
  }

  /** `phi_voting_verify_vote_v1`: 1 when the vote verifies and the supplied key is its nullifier, else 0. */
  method VerifyVoteV1<P(==)>(lib: Library<P>, c: Call, usizeMax: nat) returns (code: int)
    requires lib.group.order > 0 && (c.proof.Some? ==> |c.proof.value| <= usizeMax)
    ensures code == 0 || code == 1
    ensures code == 1 <==> Accepted(lib, c)
  {
    if c.proof.None? || c.publicKey.None? || c.chainId.None? || c.electionId.None? || c.signal.None? {
      return 0;
    }
    if c.nullifier.None? {
      return 0;
    }
    if |c.nullifier.value| != NULLIFIER_POINT_LEN {
      return 0;
    }
    var v := FromBytes(lib, c.proof.value, usizeMax);
    if v.Err? {
      return 0;
    }
    var embedded := lib.serPoint(v.value.nullifier);
    if |embedded| != NULLIFIER_POINT_LEN {
      return 0;
    }
    if c.nullifier.value != embedded {
      return 0;
    }
    var r := VerifyInner(lib, v.value, ContextOf(c));
    code := if r.Ok? then 1 else 0;
  }

  /** What acceptance means: a decodable proof that verifies, keyed by the encoding of its own nullifier. */
  ghost predicate Accepted<P>(lib: Library<P>, c: Call)
    requires lib.group.order > 0
  {
    && Complete(c)
    && Decode(lib, c.proof.value).Ok?
    && c.nullifier.value == lib.serPoint(Decode(lib, c.proof.value).value.nullifier)
    && |c.nullifier.value| == NULLIFIER_POINT_LEN
    && Verify(lib, Decode(lib, c.proof.value).value, ContextOf(c)).Ok?
  }

  /** The nullifier point of an accepted call. */
  ghost function PointOf<P>(lib: Library<P>, c: Call): P
    requires lib.group.order > 0 && Accepted(lib, c)
  {
    Decode(lib, c.proof.value).value.nullifier
  }

  ghost function AcceptedKeys<P>(lib: Library<P>, calls: seq<Call>): set<bytes>
    requires lib.group.order > 0
  {
    set c | c in calls && Accepted(lib, c) :: c.nullifier.value
  }

  ghost function AcceptedPoints<P>(lib: Library<P>, calls: seq<Call>): set<P>
    requires lib.group.order > 0
  {
    set c | c in calls && Accepted(lib, c) :: PointOf(lib, c)
  }

  /** Over any run of calls, the distinct keys accepted are as many as the distinct nullifier points. */
  lemma DistinctKeysAreDistinctPoints<P(!new)>(lib: Library<P>, calls: seq<Call>)
    requires lib.group.order > 0 && PointsCanonical(lib)
    ensures AcceptedKeys(lib, calls) == Image(AcceptedPoints(lib, calls), lib.serPoint)
    ensures |AcceptedKeys(lib, calls)| == |AcceptedPoints(lib, calls)|
  {
    var keys, points := AcceptedKeys(lib, calls), AcceptedPoints(lib, calls);
    forall k | k in keys ensures k in Image(points, lib.serPoint) {
      var c :| c in calls && Accepted(lib, c) && c.nullifier.value == k;
      assert PointOf(lib, c) in points;
    }
    forall k | k in Image(points, lib.serPoint) ensures k in keys {
      var p :| p in points && lib.serPoint(p) == k;
      var c :| c in calls && Accepted(lib, c) && PointOf(lib, c) == p;
      assert c.nullifier.value == k;
    }
    assert keys == Image(points, lib.serPoint);
    forall p, q | p in points && q in points && lib.serPoint(p) == lib.serPoint(q) ensures p == q {
      PointsInjective(lib, p, q);
    }
    ImageSize(points, lib.serPoint);
  }

  /** The export accepts a complete call exactly when `verify_vote` accepts its bytes in its context and its key is
      the proof's own nullifier. */
  lemma AcceptedExactly<P(!new)>(lib: Library<P>, c: Call)
    requires lib.group.order > 0 && PointsCanonical(lib)
    ensures Accepted(lib, c)
       <==> (&& Complete(c) && VerifyVote(lib, c.proof.value, ContextOf(c))
             && c.nullifier.value == lib.serPoint(Decode(lib, c.proof.value).value.nullifier))
  {
    if Complete(c) && VerifyVote(lib, c.proof.value, ContextOf(c)) {
      assert PointAt(lib, Decode(lib, c.proof.value).value.nullifier);
    }
  }

  /** A proof that survives the wire, presented under its own key, is accepted exactly when it verifies. */
  lemma AcceptedUnderOwnKey<P(!new)>(lib: Library<P>, v: VoteProof<P>, ctx: Context, c: Call)
    requires lib.group.order > 0 && PointsCanonical(lib) && Decode(lib, Encode(lib, v)) == Ok(v)
    requires c == Call(Some(Encode(lib, v)), Some(ctx.issuerKey), Some(ctx.chainId), Some(ctx.electionId),
                       Some(lib.serPoint(v.nullifier)), Some(ctx.signal))
    ensures Accepted(lib, c) <==> Verify(lib, v, ctx).Ok?
  {
    assert PointAt(lib, v.nullifier);
    assert ContextOf(c) == ctx;
  }

  /** End to end: the bytes of an honest proof, presented in its own context under its own key, are accepted
      exactly when the credential's signature is valid, provided the byte fields fit their prefixes. */
  lemma HonestVoteIsAccepted<P(!new)>(lib: Library<P>, claims: seq<bytes>, signature: bytes, shown: seq<nat>,
                                      ctx: Context, coins: VoteCoins, v: VoteProof<P>, c: Call)
    requires Lawful(lib) && coins.bbs.r1 % lib.group.order != 0 && |coins.bbs.message| == |claims|
    requires ProveVote(lib, claims, signature, shown, ctx, coins) == Ok(v)
    requires forall i :: i in shown ==> i < |claims| && Short(claims[i])
    requires Short(v.bbsProof) && Short(v.dlProof)
    requires c == Call(Some(Encode(lib, v)), Some(ctx.issuerKey), Some(ctx.chainId), Some(ctx.electionId),
                       Some(lib.serPoint(v.nullifier)), Some(ctx.signal))
    ensures lib.deserSignature(signature).Some? && lib.deserKey(ctx.issuerKey).Some?
    ensures Accepted(lib, c)
       <==> SignatureVerifies(lib.group, lib.deriveParams(|claims|), lib.deserKey(ctx.issuerKey).value,
                              lib.deserSignature(signature).value, Messages(lib, claims))
  {
    HonestVoteVerifies(lib, claims, signature, shown, ctx, coins, v);
    HonestVoteEncodes(lib, claims, signature, shown, ctx, coins, v);
    AcceptedUnderOwnKey(lib, v, ctx, c);
  }

  /** A call made with an honest proof by the holder of a voter secret `m0` in an election. */
  ghost predicate HonestCall<P(!new)>(lib: Library<P>, c: Call, m0: int, electionId: bytes)
    requires Lawful(lib)
  {
    && Complete(c) && c.electionId == Some(electionId)
    && exists claims, signature, shown, coins: VoteCoins, v ::
         Produced(lib, c, m0, claims, signature, shown, coins, v)
  }

  ghost predicate Produced<P(!new)>(lib: Library<P>, c: Call, m0: int, claims: seq<bytes>, signature: bytes,
                                    shown: seq<nat>, coins: VoteCoins, v: VoteProof<P>)
    requires Lawful(lib) && Complete(c)
  {
    && coins.bbs.r1 % lib.group.order != 0 && |coins.bbs.message| == |claims|
    && ProveVote(lib, claims, signature, shown, ContextOf(c), coins) == Ok(v)
    && ClaimToFr(lib, claims[VOTER_SECRET_MSG_INDEX]) == m0
    && Decode(lib, c.proof.value) == Ok(v)
  }

  /** The key of an accepted honest call is determined by the secret and the election. */
  lemma HonestKey<P(!new)>(lib: Library<P>, c: Call, m0: int, electionId: bytes)
    requires Lawful(lib) && HonestCall(lib, c, m0, electionId) && Accepted(lib, c)
    ensures HashToG1(lib, electionId).Ok?
    ensures c.nullifier.value == lib.serPoint(Times(lib.group, m0, HashToG1(lib, electionId).value))
  {
    var claims, signature, shown, coins: VoteCoins, v :| Produced(lib, c, m0, claims, signature, shown, coins, v);
    NullifierOfHonestVote(lib, claims, signature, shown, ContextOf(c), coins, v);
  }

  /** However often one voter votes in one election, with whatever chain, signal, reveal list, other claims and
      randomness, the run accepts at most one key from them. */
  lemma OneVoterOneKey<P(!new)>(lib: Library<P>, calls: seq<Call>, m0: int, electionId: bytes)
    requires Lawful(lib) && forall c :: c in calls ==> HonestCall(lib, c, m0, electionId)
    ensures |AcceptedKeys(lib, calls)| <= 1
  {
    var hE := HashToG1(lib, electionId);
    var key := if hE.Ok? then lib.serPoint(Times(lib.group, m0, hE.value)) else [];
    forall k | k in AcceptedKeys(lib, calls) ensures k == key {
      var c :| c in calls && Accepted(lib, c) && c.nullifier.value == k;
      HonestKey(lib, c, m0, electionId);
    }
    AtMostOne(AcceptedKeys(lib, calls), key);
  }

  lemma AtMostOne(s: set<bytes>, x: bytes)
    requires forall y :: y in s ==> y == x
    ensures |s| <= 1
  {
    if s != {} {
      assert s == {x};
    }
  }

  // ---------------------------------------------------------------- against any prover

  /** Two accepted answers of one prover, as the extraction theorems take them. */
  datatype Forked<P> = Forked(v: VoteProof<P>, o: Opened<P>, w: VoteProof<P>, o': Opened<P>)

  ghost predicate Sound<P(!new)>(lib: Library<P>) {
    IsGroup(lib.group) && PointsCanonical(lib) && ScalarsInjective(lib) && ParamsShape(lib)
  }

  /** A fork in the election with generator `hE`; accepted nullifiers are never the identity. */
  ghost predicate ForkedIn<P(!new)>(lib: Library<P>, x: Forked<P>, hE: P)
    requires Sound(lib)
  {
    VoteFork(lib, x.v, x.o, x.w, x.o') && x.o.hE == hE && x.v.nullifier != lib.group.zero
  }

  /** The voter secret of the credential that a fork gives up. */
  ghost function SecretOf<P(!new)>(lib: Library<P>, x: Forked<P>, hE: P): (k: int)
    requires Sound(lib) && ForkedIn(lib, x, hE)
    ensures Reduced(k, lib.group.order) && Times(lib.group, k, hE) == x.v.nullifier
  {
    var f := ForkOf(lib, x.v, x.o, x.o');
    ExtractedSecretIsReduced(lib, x.v, x.o, x.w, x.o', f);
    ExtractedMessages(lib.group, f)[VOTER_SECRET_MSG_INDEX]
  }

  ghost function ForkedKeys<P>(lib: Library<P>, xs: seq<Forked<P>>): set<bytes> {
    set x | x in xs :: lib.serPoint(x.v.nullifier)
  }

  ghost function ForkedSecrets<P(!new)>(lib: Library<P>, xs: seq<Forked<P>>, hE: P): set<int>
    requires Sound(lib) && forall x :: x in xs ==> ForkedIn(lib, x, hE)
  {
    set x | x in xs :: SecretOf(lib, x, hE)
  }

  /** The key of a voter secret. */
  ghost function KeyOf<P>(lib: Library<P>, hE: P): int -> bytes
    requires lib.group.order > 0
  {
    k => lib.serPoint(Times(lib.group, k, hE))
  }

  lemma KeysAreImage<P(!new)>(lib: Library<P>, xs: seq<Forked<P>>, hE: P)
    requires Sound(lib) && forall x :: x in xs ==> ForkedIn(lib, x, hE)
    ensures ForkedKeys(lib, xs) == Image(ForkedSecrets(lib, xs, hE), KeyOf(lib, hE))
  {
    var secrets, key := ForkedSecrets(lib, xs, hE), KeyOf(lib, hE);
    forall b | b in ForkedKeys(lib, xs) ensures b in Image(secrets, key) {
      var x :| x in xs && lib.serPoint(x.v.nullifier) == b;
      assert SecretOf(lib, x, hE) in secrets;
    }
    forall b | b in Image(secrets, key) ensures b in ForkedKeys(lib, xs) {
      var k :| k in secrets && key(k) == b;
      var x :| x in xs && SecretOf(lib, x, hE) == k;
      assert lib.serPoint(x.v.nullifier) == b;
    }
  }

  lemma KeysTellSecretsApart<P(!new)>(lib: Library<P>, hE: P, j: int, k: int)
    requires Sound(lib) && Reduced(j, lib.group.order) && Reduced(k, lib.group.order)
    requires Times(lib.group, j, hE) != lib.group.zero && KeyOf(lib, hE)(j) == KeyOf(lib, hE)(k)
    ensures j == k
  {
    PointsInjective(lib, Times(lib.group, j, hE), Times(lib.group, k, hE));
    ReducedMultiplesCompare(lib.group, j, k, hE, Times(lib.group, j, hE), Times(lib.group, k, hE));
  }

  /** One secret, one key, against any prover: over any run of accepted forks in one election, the distinct keys
      are as many as the distinct voter secrets in the credentials extracted from them. */
  lemma DistinctKeysAreDistinctSecrets<P(!new)>(lib: Library<P>, xs: seq<Forked<P>>, hE: P)
    requires Sound(lib) && forall x :: x in xs ==> ForkedIn(lib, x, hE)
    ensures |ForkedKeys(lib, xs)| == |ForkedSecrets(lib, xs, hE)|
  {
    var secrets, key := ForkedSecrets(lib, xs, hE), KeyOf(lib, hE);
    KeysAreImage(lib, xs, hE);
    forall j, k | j in secrets && k in secrets && key(j) == key(k) ensures j == k {
      KeysTellSecretsApart(lib, hE, j, k);
    }
    ImageSize(secrets, key);
  }

  // ---------------------------------------------------------------- the nullifier export

  /** `phi_compute_nullifier`: 32 bytes into the caller's buffer, or nothing at all. */
  method ComputeNullifierInto(sha256: bytes -> bytes, secret: Option<bytes>, topic: Option<bytes>, out: array<byte>)
    returns (code: int)
    requires forall b :: |sha256(b)| == 32
    modifies out
    ensures code == 1 <==> out.Length >= 32 && secret.Some? && topic.Some?
    ensures code == 1 ==>
              out[..32] == sha256(NullifierPreimage(secret.value, topic.value)) && out[32..] == old(out[32..])
    ensures code != 1 ==> code == 0 && out[..] == old(out[..])
  {
    if out.Length < 32 || secret.None? || topic.None? {
      return 0;
    }
    var n := ComputeNullifier(sha256, secret.value, topic.value);
    for i := 0 to 32
      invariant out[..i] == n[..i]
      invariant out[32..] == old(out[32..])
    {
      out[i] := n[i];
    }
    code := 1;
  }
}
