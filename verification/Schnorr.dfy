/** The Schnorr proofs of `schnorr_pok` that the vote proof and the BBS+ proof are built from:
    commitments, responses, the verifier's equation, and the two facts every such proof rests on
    (an honest response verifies; two responses to one commitment give up the witness). */
module Schnorr {
  import opened PrimeGroup

  /** Proof of knowledge of one discrete logarithm. */
  datatype DlProof<P> = DlProof(t: P, response: int)

  /** Proof of knowledge of an opening over two bases. */
  datatype PedersenProof<P> = PedersenProof(t: P, response1: int, response2: int)

  function Response(blinding: int, wit: int, challenge: int, r: nat): int
    requires r > 0
  {
    (blinding + wit * challenge) % r
  }

  function Responses(blindings: seq<int>, witnesses: seq<int>, challenge: int, r: nat): (z: seq<int>)
    requires r > 0 && |blindings| == |witnesses|
    ensures |z| == |blindings|
  {
    seq(|blindings|, i requires 0 <= i < |blindings| => Response(blindings[i], witnesses[i], challenge, r))
  }

  predicate DlVerify<P(==)>(g: Group<P>, proof: DlProof<P>, y: P, base: P, challenge: int)
    requires g.order > 0
  {
    Sub(g, Times(g, proof.response, base), Times(g, challenge, y)) == proof.t
  }

  predicate PedersenVerify<P(==)>(g: Group<P>, proof: PedersenProof<P>, y: P, base1: P, base2: P, challenge: int)
    requires g.order > 0
  {
    Sub(g, g.add(Times(g, proof.response1, base1), Times(g, proof.response2, base2)), Times(g, challenge, y)) == proof.t
  }

  predicate IsValid<P(==)>(g: Group<P>, responses: seq<int>, bases: seq<P>, y: P, t: P, challenge: int)
    requires g.order > 0
  {
    && |responses| == |bases|
    && g.add(Msm(g, bases, responses), Times(g, -challenge, y)) == t
  }

  // ---------------------------------------------------------------- one equation for all three

  /** What each of the three checks says: the responses open commitment plus challenge times statement. */
  ghost predicate Opens<P>(g: Group<P>, responses: seq<int>, bases: seq<P>, y: P, t: P, challenge: int)
    requires g.order > 0
  {
    |responses| == |bases| && Msm(g, bases, responses) == g.add(Times(g, challenge, y), t)
  }

  lemma ValidOpens<P(!new)>(g: Group<P>, responses: seq<int>, bases: seq<P>, y: P, t: P, challenge: int)
    requires IsGroup(g)
    ensures IsValid(g, responses, bases, y, t, challenge) <==> Opens(g, responses, bases, y, t, challenge)
  {
    TimesNeg(g, challenge, y);
    Transpose(g, Msm(g, bases, responses), Times(g, challenge, y), t);
  }

  lemma MsmOne<P(!new)>(g: Group<P>, base: P, k: int)
    requires IsGroup(g)
    ensures Msm(g, [base], [k]) == Times(g, k, base)
  {
    Units(g, Times(g, k, base));
    assert Msm(g, [base], [k]) == g.add(Times(g, k, base), Msm(g, [], []));
  }

  lemma MsmTwo<P(!new)>(g: Group<P>, b1: P, b2: P, k1: int, k2: int)
    requires IsGroup(g)
    ensures Msm(g, [b1, b2], [k1, k2]) == g.add(Times(g, k1, b1), Times(g, k2, b2))
  {
    MsmOne(g, b2, k2);
    assert [b1, b2][1..] == [b2] && [k1, k2][1..] == [k2];
  }

  lemma DlOpens<P(!new)>(g: Group<P>, proof: DlProof<P>, y: P, base: P, challenge: int)
    requires IsGroup(g)
    ensures DlVerify(g, proof, y, base, challenge)
       <==> Opens(g, [proof.response], [base], y, proof.t, challenge)
  {
    MsmOne(g, base, proof.response);
    Transpose(g, Times(g, proof.response, base), Times(g, challenge, y), proof.t);
  }

  lemma PedersenOpens<P(!new)>(g: Group<P>, proof: PedersenProof<P>, y: P, b1: P, b2: P, challenge: int)
    requires IsGroup(g)
    ensures PedersenVerify(g, proof, y, b1, b2, challenge)
       <==> Opens(g, [proof.response1, proof.response2], [b1, b2], y, proof.t, challenge)
  {
    MsmTwo(g, b1, b2, proof.response1, proof.response2);
    Transpose(g, g.add(Times(g, proof.response1, b1), Times(g, proof.response2, b2)), Times(g, challenge, y), proof.t);
  }

  // ---------------------------------------------------------------- linearity

  lemma {:induction false} MsmAppend<P(!new)>(g: Group<P>, b1: seq<P>, k1: seq<int>, b2: seq<P>, k2: seq<int>)
    requires IsGroup(g) && |b1| == |k1|
    ensures Msm(g, b1 + b2, k1 + k2) == g.add(Msm(g, b1, k1), Msm(g, b2, k2))
  {
    if b1 == [] {
      assert b1 + b2 == b2 && k1 + k2 == k2;
      Units(g, Msm(g, b2, k2));
    } else {
      MsmAppend(g, b1[1..], k1[1..], b2, k2);
      assert (b1 + b2)[1..] == b1[1..] + b2 && (k1 + k2)[1..] == k1[1..] + k2;
      assert AssocAt(g, Times(g, k1[0], b1[0]), Msm(g, b1[1..], k1[1..]), Msm(g, b2, k2));
    }
  }

  lemma TimesLinear<P(!new)>(g: Group<P>, a: int, x: int, b: int, y: int, z: int, p: P)
    requires IsGroup(g) && z % g.order == (a * x + b * y) % g.order
    ensures Times(g, z, p) == g.add(Times(g, a, Times(g, x, p)), Times(g, b, Times(g, y, p)))
  {
    TimesAdd(g, a * x, b * y, p);
    TimesTimes(g, a, x, p);
    TimesTimes(g, b, y, p);
  }

  /** A multi-scalar multiplication is linear in its scalars, which count modulo the order. */
  lemma {:induction false} MsmLinear<P(!new)>(g: Group<P>, bases: seq<P>, a: int, x: seq<int>, b: int, y: seq<int>,
                                              z: seq<int>)
    requires IsGroup(g) && |bases| == |x| == |y| == |z|
    requires forall i :: 0 <= i < |z| ==> z[i] % g.order == (a * x[i] + b * y[i]) % g.order
    ensures Msm(g, bases, z) == g.add(Times(g, a, Msm(g, bases, x)), Times(g, b, Msm(g, bases, y)))
  {
    if bases == [] {
      TimesZeroPoint(g, a);
      TimesZeroPoint(g, b);
      Units(g, g.zero);
    } else {
      var p := bases[0];
      var xs, ys := Msm(g, bases[1..], x[1..]), Msm(g, bases[1..], y[1..]);
      forall i | 0 <= i < |z[1..]|
        ensures z[1..][i] % g.order == (a * x[1..][i] + b * y[1..][i]) % g.order
      {
        assert z[1..][i] == z[i + 1] && x[1..][i] == x[i + 1] && y[1..][i] == y[i + 1];
      }
      MsmLinear(g, bases[1..], a, x[1..], b, y[1..], z[1..]);
      TimesLinear(g, a, x[0], b, y[0], z[0], p);
      TimesOverAdd(g, a, Times(g, x[0], p), xs);
      TimesOverAdd(g, b, Times(g, y[0], p), ys);
      Swap(g, Times(g, a, Times(g, x[0], p)), Times(g, b, Times(g, y[0], p)), Times(g, a, xs), Times(g, b, ys));
    }
  }

  // ---------------------------------------------------------------- completeness and extraction

  /** An honest response verifies exactly when the witnesses open the statement or the challenge is
      zero: the check never rejects a true statement, and passes a false one only on a zero challenge. */
  lemma HonestOpens<P(!new)>(g: Group<P>, bases: seq<P>, blindings: seq<int>, witnesses: seq<int>, y: P, challenge: int)
    requires IsGroup(g) && |bases| == |blindings| == |witnesses|
    ensures Opens(g, Responses(blindings, witnesses, challenge, g.order), bases, y, Msm(g, bases, blindings), challenge)
       <==> Msm(g, bases, witnesses) == y || challenge % g.order == 0
  {
    var z := Responses(blindings, witnesses, challenge, g.order);
    var t, w := Msm(g, bases, blindings), Msm(g, bases, witnesses);
    forall i | 0 <= i < |z|
      ensures z[i] % g.order == (1 * blindings[i] + challenge * witnesses[i]) % g.order
    {
      assert witnesses[i] * challenge == challenge * witnesses[i];
      ResidueOfResidue(blindings[i] + witnesses[i] * challenge, g.order);
    }
    MsmLinear(g, bases, 1, blindings, challenge, witnesses, z);
    TimesSmall(g, t);
    assert CommAt(g, t, Times(g, challenge, w)) && CommAt(g, t, Times(g, challenge, y));
    Cancel(g, t, Times(g, challenge, w), Times(g, challenge, y));
    if challenge % g.order != 0 {
      TimesCancel(g, challenge, w, y);
    }
  }

  lemma ResidueOfResidue(a: int, r: nat)
    requires r > 0
    ensures a % r % r == a % r
  {
  }

  lemma TimesCancel<P(!new)>(g: Group<P>, k: int, p: P, q: P)
    requires IsGroup(g) && k % g.order != 0
    ensures Times(g, k, p) == Times(g, k, q) <==> p == q
  {
    var i := Inverse(k, g.order);
    UndoTimes(g, k, i, p);
    UndoTimes(g, k, i, q);
  }

  /** The witness two responses to the same commitment give up. */
  ghost function ExtractScalar(z: int, z': int, challenge: int, challenge': int, r: nat): int
    requires Prime(r) && (challenge - challenge') % r != 0
  {
    (Inverse(challenge - challenge', r) * (z - z')) % r
  }

  ghost function Extract(z: seq<int>, z': seq<int>, challenge: int, challenge': int, r: nat): (w: seq<int>)
    requires Prime(r) && (challenge - challenge') % r != 0 && |z| == |z'|
    ensures |w| == |z|
  {
    seq(|z|, i requires 0 <= i < |z| => ExtractScalar(z[i], z'[i], challenge, challenge', r))
  }

  lemma DifferenceOfOpenings<P(!new)>(g: Group<P>, y: P, t: P, c: int, c': int)
    requires IsGroup(g)
    ensures Sub(g, g.add(Times(g, c, y), t), g.add(Times(g, c', y), t)) == Times(g, c - c', y)
  {
    TimesSub(g, c, c', y);
    var a, b := Times(g, c, y), Times(g, c', y);
    NegAdd(g, b, t);
    Swap(g, a, t, g.neg(b), g.neg(t));
    Units(g, t);
    Units(g, Sub(g, a, b));
  }

  /** Special soundness: two openings of one commitment under different challenges open the statement. */
  lemma ExtractOpens<P(!new)>(g: Group<P>, bases: seq<P>, y: P, t: P, c: int, z: seq<int>, c': int, z': seq<int>)
    requires IsGroup(g) && (c - c') % g.order != 0
    requires Opens(g, z, bases, y, t, c) && Opens(g, z', bases, y, t, c')
    ensures Msm(g, bases, Extract(z, z', c, c', g.order)) == y
  {
    var k := Inverse(c - c', g.order);
    var w := Extract(z, z', c, c', g.order);
    forall i | 0 <= i < |w|
      ensures w[i] % g.order == (k * z[i] + -k * z'[i]) % g.order
    {
      assert k * (z[i] - z'[i]) == k * z[i] + -k * z'[i];
      ResidueOfResidue(k * (z[i] - z'[i]), g.order);
    }
    MsmLinear(g, bases, k, z, -k, z', w);
    var m, m' := Msm(g, bases, z), Msm(g, bases, z');
    TimesNeg(g, k, m');
    TimesOverAdd(g, k, m, g.neg(m'));
    DifferenceOfOpenings(g, y, t, c, c');
    UndoTimes(g, c - c', k, y);
  }

  lemma DifferenceOfResponses(b: int, w: int, c: int, c': int, r: nat) returns (q: int)
    requires r > 0
    ensures Response(b, w, c, r) - Response(b, w, c', r) == w * (c - c') + q * r
  {
    var x, x' := b + w * c, b + w * c';
    DivMod(x, r);
    DivMod(x', r);
    q := x' / r - x / r;
    assert q * r == x' / r * r - x / r * r;
    assert w * (c - c') == w * c - w * c';
  }

  /** What is extracted from two honest responses is the witness they were made with. */
  lemma ExtractHonest(b: int, w: int, c: int, c': int, r: nat)
    requires Prime(r) && (c - c') % r != 0
    ensures ExtractScalar(Response(b, w, c, r), Response(b, w, c', r), c, c', r) == w % r
  {
    var d := c - c';
    var k := Inverse(d, r);
    var q := DifferenceOfResponses(b, w, c, c', r);
    CancelInverse(k, w, d, q, r);
  }

  lemma CancelInverse(k: int, w: int, d: int, q: int, r: nat)
    requires r > 1 && (d * k) % r == 1
    ensures (k * (w * d + q * r)) % r == w % r
  {
    assert k * (w * d + q * r) == w * (d * k) + k * q * r;
    SameResidue(k * (w * d + q * r), w * (d * k), k * q, r);
    ResidueOfProduct(w, d * k, r);
    ResidueOfResidue(w, r);
  }

  /** The same proof cannot answer two challenges unless its statement is the identity. */
  lemma SameResponsesSameChallenge<P(!new)>(g: Group<P>, bases: seq<P>, y: P, t: P, c: int, c': int, z: seq<int>)
    requires IsGroup(g)
    requires Opens(g, z, bases, y, t, c)
    ensures Opens(g, z, bases, y, t, c') <==> y == g.zero || (c - c') % g.order == 0
  {
    assert CommAt(g, t, Times(g, c, y)) && CommAt(g, t, Times(g, c', y));
    Cancel(g, t, Times(g, c, y), Times(g, c', y));
    TimesSub(g, c, c', y);
    Transpose(g, Times(g, c, y), Times(g, c', y), g.zero);
    Units(g, Times(g, c', y));
    TimesZeroPoint(g, c - c');
    if y != g.zero {
      OnlyOrderAnnihilates(g, c - c', y);
    }
  }
}
