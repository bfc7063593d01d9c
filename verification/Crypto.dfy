/** The library functions the crate calls and cannot see into: serialisation, hashing, hash-to-curve and
    parameter generation.  They are arbitrary functions here; the predicates below state the contracts the
    theorems rely on, each theorem naming only those it needs.  No hash is assumed to be injective. */
module Crypto {
  import opened Wrappers
  import opened Bytes
  import opened PrimeGroup
  import opened Schnorr
  import opened BbsPlus

  const NULLIFIER_POINT_LEN: nat := 48
  const SCALAR_LEN: nat := 32
  const KEY_LEN: nat := 96

  datatype Library<!P> = Library(
    group: Group<P>,
    serPoint: P -> bytes,
    deserPoint: bytes -> Option<P>,
    serScalar: int -> bytes,
    serKey: int -> bytes,
    deserKey: bytes -> Option<int>,
    deserSignature: bytes -> Option<Signature<P>>,
    serBbs: BbsProof<P> -> bytes,
    deserBbs: bytes -> Option<BbsProof<P>>,
    serDl: DlProof<P> -> bytes,
    deserDl: bytes -> Option<DlProof<P>>,
    sha256: bytes -> bytes,
    randomOracle: bytes -> int,
    hashToCurve: bytes -> Option<P>,
    deriveParams: nat -> Params<P>)

  /** A field element is represented by its residue. */
  predicate Reduced(k: int, r: nat) { 0 <= k < r }

  lemma ReducedCongruent(j: int, k: int, r: nat)
    requires Reduced(j, r) && Reduced(k, r) && (j - k) % r == 0
    ensures j == k
  {
    DivMod(j - k, r);
    var q := (j - k) / r;
    if q >= 1 {
      AtLeastOnce(q, r);
    } else if q <= -1 {
      AtLeastOnce(-q, r);
    }
  }

  // ---------------------------------------------------------------- contracts

  ghost predicate PointAt<P>(lib: Library<P>, p: P) {
    lib.deserPoint(lib.serPoint(p)) == Some(p) && |lib.serPoint(p)| == NULLIFIER_POINT_LEN
  }

  ghost predicate PointBytesAt<P>(lib: Library<P>, b: bytes) {
    lib.deserPoint(b).Some? && lib.deserPoint(b).value != lib.group.zero ==> lib.serPoint(lib.deserPoint(b).value) == b
  }

  /** Points have one encoding of 48 bytes; only the identity may have others that decode. */
  ghost predicate PointsCanonical<P(!new)>(lib: Library<P>) {
    (forall p :: PointAt(lib, p)) && (forall b :: PointBytesAt(lib, b))
  }

  ghost predicate KeyAt<P>(lib: Library<P>, k: int) {
    Reduced(k, lib.group.order) ==> lib.deserKey(lib.serKey(k)) == Some(k)
  }

  ghost predicate KeyBytesAt<P>(lib: Library<P>, b: bytes) {
    lib.deserKey(b).Some? ==> Reduced(lib.deserKey(b).value, lib.group.order)
  }

  /** Issuer keys are read back as written. */
  ghost predicate KeysRoundTrip<P(!new)>(lib: Library<P>) {
    (forall k :: KeyAt(lib, k)) && (forall b :: KeyBytesAt(lib, b))
  }

  ghost predicate BbsReduced<P>(p: BbsProof<P>, r: nat) {
    && Reduced(p.first.response1, r) && Reduced(p.first.response2, r)
    && (p.second.Some? ==> forall i :: 0 <= i < |p.second.value| ==> Reduced(p.second.value[i], r))
  }

  ghost predicate BbsAt<P>(lib: Library<P>, p: BbsProof<P>) {
    BbsReduced(p, lib.group.order) && p.second.Some? ==> lib.deserBbs(lib.serBbs(p)) == Some(p)
  }

  ghost predicate BbsBytesAt<P>(lib: Library<P>, b: bytes) {
    lib.deserBbs(b).Some? ==> BbsReduced(lib.deserBbs(b).value, lib.group.order)
  }

  ghost predicate DlAt<P>(lib: Library<P>, p: DlProof<P>) {
    Reduced(p.response, lib.group.order) ==> lib.deserDl(lib.serDl(p)) == Some(p)
  }

  ghost predicate DlBytesAt<P>(lib: Library<P>, b: bytes) {
    lib.deserDl(b).Some? ==> Reduced(lib.deserDl(b).value.response, lib.group.order)
  }

  /** Finished proofs are read back as written, and whatever is read carries field elements. */
  ghost predicate ProofsRoundTrip<P(!new)>(lib: Library<P>) {
    && (forall p :: BbsAt(lib, p)) && (forall b :: BbsBytesAt(lib, b))
    && (forall p :: DlAt(lib, p)) && (forall b :: DlBytesAt(lib, b))
  }

  ghost predicate ScalarsAt<P>(lib: Library<P>, j: int, k: int) {
    Reduced(j, lib.group.order) && Reduced(k, lib.group.order) && lib.serScalar(j) == lib.serScalar(k) ==> j == k
  }

  /** Different field elements have different encodings. */
  ghost predicate ScalarsInjective<P>(lib: Library<P>) {
    forall j, k :: ScalarsAt(lib, j, k)
  }

  ghost predicate ScalarWidthAt<P>(lib: Library<P>, k: int) {
    Reduced(k, lib.group.order) ==> |lib.serScalar(k)| == SCALAR_LEN
  }

  ghost predicate KeyWidthAt<P>(lib: Library<P>, k: int) {
    Reduced(k, lib.group.order) ==> |lib.serKey(k)| == KEY_LEN
  }

  /** Field elements and issuer keys have encodings of fixed width. */
  ghost predicate FixedWidths<P>(lib: Library<P>) {
    (forall k :: ScalarWidthAt(lib, k)) && (forall k :: KeyWidthAt(lib, k))
  }

  ghost predicate DigestAt<P>(lib: Library<P>, b: bytes) { |lib.sha256(b)| == 32 }

  ghost predicate OracleAt<P>(lib: Library<P>, b: bytes) { Reduced(lib.randomOracle(b), lib.group.order) }

  /** SHA-256 returns 32 bytes and the random oracle a field element. */
  ghost predicate HashShapes<P>(lib: Library<P>) {
    (forall b :: DigestAt(lib, b)) && (forall b :: OracleAt(lib, b))
  }

  ghost predicate ParamsAt<P>(lib: Library<P>, n: nat) { |lib.deriveParams(n).h| == n }

  /** Parameters for n messages have n message generators. */
  ghost predicate ParamsShape<P>(lib: Library<P>) {
    forall n :: ParamsAt(lib, n)
  }

  /** All contracts together. */
  ghost predicate Lawful<P(!new)>(lib: Library<P>) {
    && IsGroup(lib.group) && PointsCanonical(lib) && KeysRoundTrip(lib) && ProofsRoundTrip(lib)
    && ScalarsInjective(lib) && FixedWidths(lib) && HashShapes(lib) && ParamsShape(lib)
  }

  // ---------------------------------------------------------------- shared helpers

  /** A claim as a field element: its SHA-256 digest, read little-endian, modulo the order. */
  function ClaimToFr<P>(lib: Library<P>, claim: bytes): int
    requires lib.group.order > 0
  {
    LittleValue(lib.sha256(claim)) % lib.group.order
  }

  /** Two different claims whose digests differ by a multiple of the order. */
  ghost predicate ModularClash<P>(lib: Library<P>, c: bytes, c': bytes)
    requires lib.group.order > 0
  {
    var j, k := LittleValue(lib.sha256(c)), LittleValue(lib.sha256(c'));
    j != k && (j - k) % lib.group.order == 0
  }

  /** The two ways in which different claims can be one field element. */
  ghost predicate Confusable<P>(lib: Library<P>, c: bytes, c': bytes)
    requires lib.group.order > 0
  {
    Collision(lib.sha256, c, c') || ModularClash(lib, c, c')
  }

  lemma CongruentResidues(j: int, k: int, r: nat)
    requires r > 0
    ensures j % r == k % r <==> (j - k) % r == 0
  {
    DivMod(j, r);
    DivMod(k, r);
    DivMod(j - k, r);
    if j % r == k % r {
      var q := j / r - k / r;
      assert q * r == j / r * r - k / r * r;
      SameResidue(j - k, 0, q, r);
    }
    if (j - k) % r == 0 {
      SameResidue(j, k, (j - k) / r, r);
    }
  }

  /** Claims are one field element exactly when they are equal or confusable. */
  lemma ClaimsCompare<P(!new)>(lib: Library<P>, c: bytes, c': bytes)
    requires lib.group.order > 0 && HashShapes(lib)
    ensures ClaimToFr(lib, c) == ClaimToFr(lib, c') <==> c == c' || Confusable(lib, c, c')
  {
    assert DigestAt(lib, c) && DigestAt(lib, c');
    LittleValueInjective(lib.sha256(c), lib.sha256(c'));
    CongruentResidues(LittleValue(lib.sha256(c)), LittleValue(lib.sha256(c')), lib.group.order);
  }

  lemma FarApart(d: int, r: nat)
    requires r > 0 && d != 0 && d % r == 0
    ensures d >= r || -d >= r
  {
    DivMod(d, r);
    if d / r >= 1 {
      AtLeastOnce(d / r, r);
    } else if d / r <= -1 {
      AtLeastOnce(-(d / r), r);
    }
  }

  /** Digests that a modular clash exhibits are at least the order apart. */
  lemma ModularClashIsFarApart<P(!new)>(lib: Library<P>, c: bytes, c': bytes, d: int)
    requires lib.group.order > 0 && ModularClash(lib, c, c')
    requires d == LittleValue(lib.sha256(c)) - LittleValue(lib.sha256(c'))
    ensures d >= lib.group.order || -d >= lib.group.order
  {
    FarApart(d, lib.group.order);
  }

  function Messages<P>(lib: Library<P>, claims: seq<bytes>): (m: seq<int>)
    requires lib.group.order > 0
    ensures |m| == |claims|
  {
    seq(|claims|, i requires 0 <= i < |claims| => ClaimToFr(lib, claims[i]))
  }

  lemma PointsInjective<P(!new)>(lib: Library<P>, p: P, q: P)
    requires PointsCanonical(lib)
    ensures lib.serPoint(p) == lib.serPoint(q) <==> p == q
  {
    assert PointAt(lib, p) && PointAt(lib, q);
  }

  lemma ResponsesReduced(blindings: seq<int>, witnesses: seq<int>, challenge: int, r: nat)
    requires r > 0 && |blindings| == |witnesses|
    ensures forall i :: 0 <= i < |blindings| ==> Reduced(Responses(blindings, witnesses, challenge, r)[i], r)
  {
  }

  lemma FinishedIsReadBack<P(!new)>(lib: Library<P>, pok: BbsProtocol<P>, challenge: int)
    requires Lawful(lib) && |pok.blindings| == |pok.witnesses|
    ensures lib.deserBbs(lib.serBbs(FinishProof(lib.group, pok, challenge)))
         == Some(FinishProof(lib.group, pok, challenge))
  {
    ResponsesReduced(pok.blindings, pok.witnesses, challenge, lib.group.order);
    assert BbsAt(lib, FinishProof(lib.group, pok, challenge));
  }

  /** The first statement of a proof answers one challenge only, unless it is the identity. */
  lemma OneAnswer<P(!new)>(g: Group<P>, params: Params<P>, proof: BbsProof<P>, revealed: map<nat, int>, x: int, c: int,
                           revealed': map<nat, int>, x': int, c': int)
    requires IsGroup(g) && Reduced(c, g.order) && Reduced(c', g.order)
    requires VerifyProof(g, proof, revealed, c, x, params) && VerifyProof(g, proof, revealed', c', x', params)
    ensures c == c' || proof.aBar == proof.d
  {
    FirstAnswersOneChallenge(g, params, proof, revealed, x, c, revealed', x', c');
    if (c - c') % g.order == 0 {
      ReducedCongruent(c, c', g.order);
    }
  }
}
