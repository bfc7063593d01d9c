/** What the two proofs contribute to a Fiat-Shamir challenge, and what equal contributions determine. */
module ChallengeInputs {
  import opened Wrappers
  import opened Bytes
  import opened BbsPlus
  import opened Crypto
  import opened Framing
  import opened Revealed

  /** The generators with the revealed scalars between them, as the challenge absorbs them. */
  function Contributions<P>(lib: Library<P>, h: seq<P>, revealed: map<nat, int>, from: nat): bytes
    requires from <= |h|
    decreases |h| - from
  {
    if from == |h| then []
    else
      lib.serPoint(h[from])
      + ((if from in revealed then lib.serScalar(revealed[from]) else [])
         + Contributions(lib, h, revealed, from + 1))
  }

  /** The BBS+ proof's contribution to the challenge; prover and verifier compute it from the same values. */
  function BbsContribution<P>(lib: Library<P>, aPrime: P, aBar: P, d: P, t1: P, t2: P, revealed: map<nat, int>,
                              params: Params<P>): bytes {
    lib.serPoint(aPrime)
    + (lib.serPoint(aBar)
       + (lib.serPoint(d)
          + (lib.serPoint(params.h0)
             + (lib.serPoint(params.g1)
                + (lib.serPoint(t1)
                   + (lib.serPoint(t2) + Contributions(lib, params.h, revealed, 0)))))))
  }

  function DlContribution<P>(lib: Library<P>, base: P, y: P, t: P): bytes {
    lib.serPoint(base) + lib.serPoint(y) + lib.serPoint(t)
  }

  // ---------------------------------------------------------------- the discrete-log part

  /** The discrete-log contribution has a fixed length and determines its three points. */
  lemma DlContributionInjective<P(!new)>(lib: Library<P>, base: P, y: P, t: P, base': P, y': P, t': P)
    requires PointsCanonical(lib)
    ensures |DlContribution(lib, base, y, t)| == |DlContribution(lib, base', y', t')| == 3 * NULLIFIER_POINT_LEN
    ensures DlContribution(lib, base, y, t) == DlContribution(lib, base', y', t')
       <==> base == base' && y == y' && t == t'
  {
    assert PointAt(lib, base) && PointAt(lib, y) && PointAt(lib, t);
    assert PointAt(lib, base') && PointAt(lib, y') && PointAt(lib, t');
    if DlContribution(lib, base, y, t) == DlContribution(lib, base', y', t') {
      PrefixesAgree(lib.serPoint(base) + lib.serPoint(y), lib.serPoint(t), lib.serPoint(base') + lib.serPoint(y'),
                    lib.serPoint(t'));
      PrefixesAgree(lib.serPoint(base), lib.serPoint(y), lib.serPoint(base'), lib.serPoint(y'));
    }
  }

  // ---------------------------------------------------------------- the BBS+ part

  lemma SplitPoint<P(!new)>(lib: Library<P>, p: P, x: bytes, q: P, y: bytes)
    requires PointsCanonical(lib) && lib.serPoint(p) + x == lib.serPoint(q) + y
    ensures p == q && x == y
  {
    assert PointAt(lib, p) && PointAt(lib, q);
    PrefixesAgree(lib.serPoint(p), x, lib.serPoint(q), y);
  }

  lemma SplitScalar<P(!new)>(lib: Library<P>, j: int, x: bytes, k: int, y: bytes)
    requires ScalarsInjective(lib) && FixedWidths(lib)
    requires Reduced(j, lib.group.order) && Reduced(k, lib.group.order)
    requires lib.serScalar(j) + x == lib.serScalar(k) + y
    ensures j == k && x == y
  {
    assert ScalarWidthAt(lib, j) && ScalarWidthAt(lib, k) && ScalarsAt(lib, j, k);
    PrefixesAgree(lib.serScalar(j), x, lib.serScalar(k), y);
  }

  ghost predicate MapReduced<P>(lib: Library<P>, m: map<nat, int>) {
    forall i :: i in m ==> Reduced(m[i], lib.group.order)
  }

  /** The scalar revealed at `i` is encoded like the beginning of the generator after it. */
  ghost predicate ClashAt<P>(lib: Library<P>, h: seq<P>, revealed: map<nat, int>, i: nat) {
    && i in revealed && i + 1 < |h| && |lib.serPoint(h[i + 1])| >= SCALAR_LEN
    && lib.serScalar(revealed[i]) == lib.serPoint(h[i + 1])[..SCALAR_LEN]
  }

  /** Scalars are not framed inside a contribution: this is the one way to mistake one for a generator. */
  ghost predicate Clash<P>(lib: Library<P>, h: seq<P>, revealed: map<nat, int>) {
    exists i :: ClashAt(lib, h, revealed, i)
  }

  ghost predicate AgreeAt<P(!new)>(h: seq<P>, m: map<nat, int>, h': seq<P>, m': map<nat, int>, i: nat)
    requires i < |h| == |h'|
  {
    h[i] == h'[i] && (i in m <==> i in m') && (i in m ==> m[i] == m'[i])
  }

  /** A scalar on one side only clashes with the generator after it. */
  lemma OneSided<P(!new)>(lib: Library<P>, h: seq<P>, m: map<nat, int>, h': seq<P>, m': map<nat, int>, i: nat)
    requires PointsCanonical(lib) && FixedWidths(lib) && MapReduced(lib, m) && i < |h| == |h'| && i in m
    requires lib.serScalar(m[i]) + Contributions(lib, h, m, i + 1) == Contributions(lib, h', m', i + 1)
    ensures Clash(lib, h', m)
  {
    assert ScalarWidthAt(lib, m[i]);
    var x, y := lib.serScalar(m[i]), Contributions(lib, h', m', i + 1);
    assert y[..SCALAR_LEN] == x;
    assert PointAt(lib, h'[i + 1]);
    assert ClashAt(lib, h', m, i);
  }

  /** One index of two equal contributions: the same there and equal beyond, or a clash. */
  lemma ContributionsStep<P(!new)>(lib: Library<P>, h: seq<P>, m: map<nat, int>, h': seq<P>, m': map<nat, int>, i: nat)
    requires PointsCanonical(lib) && ScalarsInjective(lib) && FixedWidths(lib)
    requires MapReduced(lib, m) && MapReduced(lib, m') && i < |h| == |h'|
    requires Contributions(lib, h, m, i) == Contributions(lib, h', m', i)
    ensures
      if i in m <==> i in m'
      then AgreeAt(h, m, h', m', i) && Contributions(lib, h, m, i + 1) == Contributions(lib, h', m', i + 1)
      else Clash(lib, h', m) || Clash(lib, h, m')
  {
    var r, r' := Contributions(lib, h, m, i + 1), Contributions(lib, h', m', i + 1);
    var x := if i in m then lib.serScalar(m[i]) else [];
    var x' := if i in m' then lib.serScalar(m'[i]) else [];
    SplitPoint(lib, h[i], x + r, h'[i], x' + r');
    assert [] + r == r && [] + r' == r';
    if i in m && i !in m' {
      OneSided(lib, h, m, h', m', i);
    } else if i !in m && i in m' {
      OneSided(lib, h', m', h, m, i);
    } else if i in m {
      SplitScalar(lib, m[i], r, m'[i], r');
    }
  }

  /** Equal contributions have equal generators and equal revealed scalars, index by index, or one of the two
      maps holds a clash; with the same indices revealed, there is no clash to fear. */
  lemma {:induction false} ContributionsDetermine<P(!new)>(lib: Library<P>, h: seq<P>, m: map<nat, int>, h': seq<P>,
                                                           m': map<nat, int>, from: nat)
    requires PointsCanonical(lib) && ScalarsInjective(lib) && FixedWidths(lib)
    requires MapReduced(lib, m) && MapReduced(lib, m') && from <= |h| == |h'|
    requires Contributions(lib, h, m, from) == Contributions(lib, h', m', from)
    ensures (forall i :: from <= i < |h| ==> AgreeAt(h, m, h', m', i)) || Clash(lib, h', m) || Clash(lib, h, m')
    ensures m.Keys == m'.Keys ==> forall i :: from <= i < |h| ==> AgreeAt(h, m, h', m', i)
    decreases |h| - from
  {
    if from < |h| {
      ContributionsStep(lib, h, m, h', m', from);
      if from in m <==> from in m' {
        ContributionsDetermine(lib, h, m, h', m', from + 1);
      }
    }
  }

  lemma {:induction false} ContributionsBounded<P(!new)>(lib: Library<P>, h: seq<P>, m: map<nat, int>, from: nat)
    requires PointsCanonical(lib) && FixedWidths(lib) && MapReduced(lib, m) && from <= |h|
    ensures |Contributions(lib, h, m, from)| <= (|h| - from) * (NULLIFIER_POINT_LEN + SCALAR_LEN)
    decreases |h| - from
  {
    if from < |h| {
      ContributionsBounded(lib, h, m, from + 1);
      assert PointAt(lib, h[from]);
      if from in m {
        assert ScalarWidthAt(lib, m[from]);
      }
    }
  }

  /** A contribution always fits its prefix: credentials have at most 64 claims. */
  lemma BbsContributionIsShort<P(!new)>(lib: Library<P>, aPrime: P, aBar: P, d: P, t1: P, t2: P, m: map<nat, int>,
                                        params: Params<P>)
    requires PointsCanonical(lib) && FixedWidths(lib) && MapReduced(lib, m) && |params.h| <= MAX_BBS_MESSAGES
    ensures Short(BbsContribution(lib, aPrime, aBar, d, t1, t2, m, params))
  {
    ContributionsBounded(lib, params.h, m, 0);
    assert PointAt(lib, aPrime) && PointAt(lib, aBar) && PointAt(lib, d) && PointAt(lib, t1) && PointAt(lib, t2);
    assert PointAt(lib, params.h0) && PointAt(lib, params.g1);
  }

  /** Equal BBS+ contributions come from the same commitments, the same parameters and the same revealed scalars,
      or one of the two revealed maps holds a clash. */
  lemma BbsContributionBinds<P(!new)>(
    lib: Library<P>, aPrime: P, aBar: P, d: P, t1: P, t2: P, m: map<nat, int>, params: Params<P>,
    aPrime': P, aBar': P, d': P, t1': P, t2': P, m': map<nat, int>, params': Params<P>)
    requires PointsCanonical(lib) && ScalarsInjective(lib) && FixedWidths(lib)
    requires MapReduced(lib, m) && MapReduced(lib, m') && |params.h| == |params'.h|
    requires BbsContribution(lib, aPrime, aBar, d, t1, t2, m, params)
          == BbsContribution(lib, aPrime', aBar', d', t1', t2', m', params')
    ensures aPrime == aPrime' && aBar == aBar' && d == d' && t1 == t1' && t2 == t2'
    ensures params.h0 == params'.h0 && params.g1 == params'.g1
    ensures
      || (forall i: nat :: i < |params.h| ==> AgreeAt(params.h, m, params'.h, m', i))
      || Clash(lib, params'.h, m) || Clash(lib, params.h, m')
    ensures m.Keys == m'.Keys ==> forall i: nat :: i < |params.h| ==> AgreeAt(params.h, m, params'.h, m', i)
  {
    var x7, y7 := Contributions(lib, params.h, m, 0), Contributions(lib, params'.h, m', 0);
    var x6, y6 := lib.serPoint(t2) + x7, lib.serPoint(t2') + y7;
    var x5, y5 := lib.serPoint(t1) + x6, lib.serPoint(t1') + y6;
    var x4, y4 := lib.serPoint(params.g1) + x5, lib.serPoint(params'.g1) + y5;
    var x3, y3 := lib.serPoint(params.h0) + x4, lib.serPoint(params'.h0) + y4;
    var x2, y2 := lib.serPoint(d) + x3, lib.serPoint(d') + y3;
    var x1, y1 := lib.serPoint(aBar) + x2, lib.serPoint(aBar') + y2;
    SplitPoint(lib, aPrime, x1, aPrime', y1);
    SplitPoint(lib, aBar, x2, aBar', y2);
    SplitPoint(lib, d, x3, d', y3);
    SplitPoint(lib, params.h0, x4, params'.h0, y4);
    SplitPoint(lib, params.g1, x5, params'.g1, y5);
    SplitPoint(lib, t1, x6, t1', y6);
    SplitPoint(lib, t2, x7, t2', y7);
    ContributionsDetermine(lib, params.h, m, params'.h, m', 0);
  }

  /** The same revealed scalars, unless one of them is encoded like the beginning of the generator after it. */
  ghost predicate SameShown<P>(lib: Library<P>, count: nat, m: map<nat, int>, m': map<nat, int>) {
    || m == m'
    || (m.Keys != m'.Keys && (Clash(lib, lib.deriveParams(count).h, m) || Clash(lib, lib.deriveParams(count).h, m')))
  }

  lemma ShownAgree<P(!new)>(h: seq<P>, m: map<nat, int>, m': map<nat, int>)
    requires forall i: nat :: i < |h| ==> AgreeAt(h, m, h, m', i)
    requires forall i :: i in m ==> i < |h|
    requires forall i :: i in m' ==> i < |h|
    ensures m == m'
  {
    forall i | i in m ensures i in m' && m[i] == m'[i] {
      assert AgreeAt(h, m, h, m', i);
    }
    forall i | i in m' ensures i in m {
      assert AgreeAt(h, m, h, m', i);
    }
  }

  /** Equal BBS+ contributions for one message count. */
  lemma ContributionsBind<P(!new)>(lib: Library<P>, count: nat, p: BbsProof<P>, m: map<nat, int>, q: BbsProof<P>,
                                   m': map<nat, int>)
    requires PointsCanonical(lib) && ScalarsInjective(lib) && FixedWidths(lib) && ParamsShape(lib)
    requires MapReduced(lib, m) && MapReduced(lib, m')
    requires forall i :: i in m ==> i < count
    requires forall i :: i in m' ==> i < count
    requires
      var params := lib.deriveParams(count);
      BbsContribution(lib, p.aPrime, p.aBar, p.d, p.first.t, p.t2, m, params)
      == BbsContribution(lib, q.aPrime, q.aBar, q.d, q.first.t, q.t2, m', params)
    ensures SameCommitments(p, q) && SameShown(lib, count, m, m')
  {
    var params := lib.deriveParams(count);
    assert ParamsAt(lib, count);
    BbsContributionBinds(lib, p.aPrime, p.aBar, p.d, p.first.t, p.t2, m, params,
                         q.aPrime, q.aBar, q.d, q.first.t, q.t2, m', params);
    if forall i: nat :: i < |params.h| ==> AgreeAt(params.h, m, params.h, m', i) {
      ShownAgree(params.h, m, m');
    }
  }
}
