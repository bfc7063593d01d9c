/** The contracts assumed of the libraries can be met together, and so can the hypotheses of the theorems: a
    library over the group of order three, in which a prover succeeds and, rewound, gives up its secret. */
module LibraryWitness {
  import opened Wrappers
  import opened Bytes
  import opened PrimeGroup
  import opened Schnorr
  import opened BbsPlus
  import opened Crypto
  import opened Vote
  import opened VoteCodec
  import opened VoteTheorems

  datatype Three = Zero | One | Two

  function Digit(p: Three): byte { if p.Zero? then 0 else if p.One? then 1 else 2 }

  function Point(k: int): Three { if k == 1 then One else if k == 2 then Two else Zero }

  function ScalarByte(k: int): byte { if 0 <= k < 3 then k else 0 }

  function Next(p: Three): Three { if p.Zero? then One else if p.One? then Two else Zero }

  function Plus(p: Three, q: Three): Three { if p.Zero? then q else if p.One? then Next(q) else Next(Next(q)) }

  function Modulo3(): Group<Three> {
    Group(3, Zero, Plus, a => Plus(a, a))
  }

  function SerPoint(p: Three): bytes { seq(NULLIFIER_POINT_LEN, i => Digit(p)) }

  function DeserPoint(b: bytes): Option<Three> {
    if |b| == NULLIFIER_POINT_LEN && b == SerPoint(Point(b[0])) then Some(Point(b[0])) else None
  }

  function SerScalar(k: int): bytes { seq(SCALAR_LEN, i => ScalarByte(k)) }

  function SerKey(k: int): bytes { seq(KEY_LEN, i => ScalarByte(k)) }

  function DeserKey(b: bytes): Option<int> { if |b| == KEY_LEN && b[0] < 3 then Some(b[0]) else None }

  function SerScalars(ks: seq<int>): bytes { seq(|ks|, i requires 0 <= i < |ks| => ScalarByte(ks[i])) }

  function DeserScalars(b: bytes): seq<int> { seq(|b|, i requires 0 <= i < |b| => ScalarByte(b[i])) }

  function SerBbs(p: BbsProof<Three>): bytes {
    [Digit(p.aPrime), Digit(p.aBar), Digit(p.d), Digit(p.first.t), Digit(p.t2)]
    + [ScalarByte(p.first.response1), ScalarByte(p.first.response2)]
    + SerScalars(if p.second.Some? then p.second.value else [])
  }

  function DeserBbs(b: bytes): Option<BbsProof<Three>> {
    if |b| < 7 then None
    else
      var first := PedersenProof(Point(b[3]), ScalarByte(b[5]), ScalarByte(b[6]));
      Some(BbsProof(Point(b[0]), Point(b[1]), Point(b[2]), first, Point(b[4]), Some(DeserScalars(b[7..]))))
  }

  function SerDl(p: DlProof<Three>): bytes { [Digit(p.t), ScalarByte(p.response)] }

  function DeserDl(b: bytes): Option<DlProof<Three>> {
    if |b| != 2 then None else Some(DlProof(Point(b[0]), ScalarByte(b[1])))
  }

  /** A digest that stands for the number one in little-endian order. */
  function Digest(): bytes { [1] + seq(31, i => 0) }

  function Silent(): Library<Three> {
    Library(Modulo3(), SerPoint, DeserPoint, SerScalar, SerKey, DeserKey,
            b => Some(Signature(One, 0, 2)), SerBbs, DeserBbs, SerDl, DeserDl,
            b => Digest(), b => 0, b => Some(One), (n: nat) => Params(One, One, seq(n, i => One)))
  }

  /** The library whose random oracle always answers `c`. */
  function Small(c: int): Library<Three> { Silent().(randomOracle := b => c) }

  // ---------------------------------------------------------------- the contracts hold

  lemma PlusLaws(a: Three, b: Three, c: Three)
    ensures Plus(Plus(a, b), c) == Plus(a, Plus(b, c)) && Plus(a, b) == Plus(b, a)
    ensures Plus(Zero, a) == a && Plus(a, Plus(a, a)) == Zero
  {
  }

  lemma MulSmall(p: Three)
    ensures Mul(Modulo3(), 0, p) == Zero && Mul(Modulo3(), 1, p) == p
    ensures Mul(Modulo3(), 2, p) == Plus(p, p) && Mul(Modulo3(), 3, p) == Zero
  {
    var g := Modulo3();
    assert Mul(g, 1, p) == Plus(p, Mul(g, 0, p));
    assert Mul(g, 2, p) == Plus(p, Mul(g, 1, p));
    assert Mul(g, 3, p) == Plus(p, Mul(g, 2, p));
  }

  lemma ThreeIsPrime()
    ensures Prime(3)
  {
  }

  lemma Modulo3IsGroup()
    ensures IsGroup(Modulo3())
  {
    var g := Modulo3();
    ThreeIsPrime();
    forall a, b, c ensures AssocAt(g, a, b, c) && CommAt(g, a, b) {
      PlusLaws(a, b, c);
    }
    forall a ensures UnitAt(g, a) && InverseAt(g, a) && TorsionAt(g, a) {
      PlusLaws(a, a, a);
      MulSmall(a);
    }
  }

  lemma SmallPoints(c: int)
    ensures PointsCanonical(Small(c))
  {
    forall p ensures PointAt(Small(c), p) {
      assert SerPoint(p)[0] == Digit(p);
    }
  }

  lemma ScalarsReadBack(ks: seq<int>)
    requires forall i :: 0 <= i < |ks| ==> Reduced(ks[i], 3)
    ensures DeserScalars(SerScalars(ks)) == ks
  {
  }

  lemma BbsReadBack(p: BbsProof<Three>)
    requires BbsReduced(p, 3) && p.second.Some?
    ensures DeserBbs(SerBbs(p)) == Some(p)
  {
    ScalarsReadBack(p.second.value);
    assert SerBbs(p)[7..] == SerScalars(p.second.value);
  }

  lemma SmallProofs(c: int)
    ensures ProofsRoundTrip(Small(c))
  {
    forall p ensures BbsAt(Small(c), p) {
      if BbsReduced(p, 3) && p.second.Some? {
        BbsReadBack(p);
      }
    }
    forall b ensures BbsBytesAt(Small(c), b) {
      BbsBytesReduced(b);
    }
  }

  lemma BbsBytesReduced(b: bytes)
    ensures DeserBbs(b).Some? ==> BbsReduced(DeserBbs(b).value, 3)
  {
  }

  lemma SmallScalars(c: int)
    ensures ScalarsInjective(Small(c)) && FixedWidths(Small(c)) && KeysRoundTrip(Small(c))
  {
    forall j, k ensures ScalarsAt(Small(c), j, k) {
      assert SerScalar(j)[0] == ScalarByte(j) && SerScalar(k)[0] == ScalarByte(k);
    }
    forall k ensures KeyAt(Small(c), k) {
      assert SerKey(k)[0] == ScalarByte(k);
    }
  }

  lemma LawfulLibraryExists(c: int)
    requires 0 <= c < 3
    ensures Lawful(Small(c))
  {
    Modulo3IsGroup();
    SmallPoints(c);
    SmallProofs(c);
    SmallScalars(c);
  }

  // ---------------------------------------------------------------- a prover succeeds

  const CLAIMS: seq<bytes> := [[]]
  const CONTEXT: Context := Context(SerKey(1), [], [], [])
  const COINS: VoteCoins := VoteCoins(1, 0, Coins(1, 0, 0, 0, [0], 0, 0))

  lemma {:induction false} ZerosAreZero(n: nat)
    ensures LittleValue(seq(n, i => 0)) == 0
  {
    if n > 0 {
      ZerosAreZero(n - 1);
      assert seq(n, i => 0)[1..] == seq(n - 1, i => 0);
    }
  }

  lemma ClaimIsOne(c: int)
    ensures Messages(Small(c), CLAIMS) == [1]
  {
    ZerosAreZero(31);
    assert Digest()[1..] == seq(31, i => 0);
    assert LittleValue(Digest()) == 1;
  }

  lemma TimesSmallScalars(p: Three)
    ensures Times(Modulo3(), 0, p) == Zero && Times(Modulo3(), 1, p) == p && Times(Modulo3(), 2, p) == Plus(p, p)
  {
    MulSmall(p);
  }

  lemma SmallCredentialIsValid()
    ensures SignatureVerifies(Modulo3(), Params(One, One, [One]), 1, Signature(One, 0, 2), [1])
  {
    var g := Modulo3();
    TimesSmallScalars(One);
    MsmOne3(2);
    assert [One] + [One] == [One, One] && [1] + [2] == [1, 2];
    assert [One, One][1..] == [One] && [1, 2][1..] == [2];
    assert Msm(g, [One, One], [1, 2]) == Plus(One, Msm(g, [One], [2]));
    assert B(g, Params(One, One, [One]), [1], 2) == One;
  }

  lemma MsmOne3(k: int)
    ensures Msm(Modulo3(), [One], [k]) == Times(Modulo3(), k, One)
  {
    Modulo3IsGroup();
    MsmOne(Modulo3(), One, k);
  }

  lemma SmallIsProvable(c: int)
    ensures Provable(Small(c), CLAIMS, [], [], CONTEXT)
  {
    ClaimIsOne(c);
    assert Messages(Small(c), CLAIMS)[0] == ClaimToFr(Small(c), []);
  }

  /** Its credential is valid. */
  lemma CredentialIsValid(c: int)
    ensures SignatureVerifies(Modulo3(), Small(c).deriveParams(1), 1, Signature(One, 0, 2), Messages(Small(c), CLAIMS))
  {
    ClaimIsOne(c);
    SmallCredentialIsValid();
    assert seq(1, i => One) == [One];
  }

  /** With a challenge that is not zero the prover returns a proof, which verifies. */
  lemma VoteIn(lib: Library<Three>, sig: Signature<Three>, key: int, messages: seq<int>) returns (v: VoteProof<Three>)
    requires Lawful(lib) && lib.group.order == 3 && Provable(lib, CLAIMS, [], [], CONTEXT)
    requires forall b :: NonZeroAt(lib, b)
    requires lib.deserKey(CONTEXT.issuerKey) == Some(key) && lib.deserSignature([]) == Some(sig)
    requires Messages(lib, CLAIMS) == messages && SignatureVerifies(lib.group, lib.deriveParams(1), key, sig, messages)
    ensures ProveVote(lib, CLAIMS, [], [], CONTEXT, COINS) == Ok(v) && Verify(lib, v, CONTEXT).Ok?
    ensures Open(lib, v, CONTEXT).value.challenge == lib.randomOracle(TranscriptIn(lib, v, CONTEXT))
  {
    ProveVoteSucceeds(lib, CLAIMS, [], [], CONTEXT, COINS, ProveVote(lib, CLAIMS, [], [], CONTEXT, COINS));
    v := ProveVote(lib, CLAIMS, [], [], CONTEXT, COINS).value;
    HonestVoteVerifies(lib, CLAIMS, [], [], CONTEXT, COINS, v);
    OpenFacts(lib, v, CONTEXT, Open(lib, v, CONTEXT).value);
  }

  lemma ProverSucceeds(c: int) returns (v: VoteProof<Three>)
    requires 0 < c < 3
    ensures Lawful(Small(c)) && ProveVote(Small(c), CLAIMS, [], [], CONTEXT, COINS) == Ok(v)
    ensures Verify(Small(c), v, CONTEXT).Ok? && Open(Small(c), v, CONTEXT).value.challenge == c
  {
    LawfulLibraryExists(c);
    SmallIsProvable(c);
    CredentialIsValid(c);
    assert SerKey(1)[0] == 1;
    v := VoteIn(Small(c), Signature(One, 0, 2), 1, Messages(Small(c), CLAIMS));
  }

  lemma SmallReprogrammed()
    ensures Reprogrammed(Small(1), Small(2))
  {
  }

  /** So every hypothesis of the completeness and extraction theorems can hold, all at once. */
  lemma ForkExists() returns (v: VoteProof<Three>, w: VoteProof<Three>)
    ensures Lawful(Small(1)) && Lawful(Small(2)) && Reprogrammed(Small(1), Small(2))
    ensures Verify(Small(1), v, CONTEXT).Ok? && Verify(Small(2), w, CONTEXT).Ok?
    ensures VoteFork(Small(1), v, Open(Small(1), v, CONTEXT).value, w, Open(Small(2), w, CONTEXT).value)
  {
    v := ProverSucceeds(1);
    w := ProverSucceeds(2);
    SmallReprogrammed();
    RewoundProverForks(Small(1), Small(2), CLAIMS, [], [], CONTEXT, COINS, v, w);
  }
}
