/** The BBS+ signature and its proof of knowledge (`bbs_plus`, group G1), with the messages split into
    revealed and hidden ones.

    An issuer key is a point x * g2 of the prime-order group G2 and is represented by x.  A pairing
    check e(U, x * g2) = e(V, g2) then says x * U = V. */
module BbsPlus {
  import opened Wrappers
  import opened PrimeGroup
  import opened Schnorr

  datatype Params<P> = Params(g1: P, h0: P, h: seq<P>)

  datatype Signature<P> = Signature(a: P, e: int, s: int)

  /** A finished proof.  `second` is absent when the encoding carries no complete second response. */
  datatype BbsProof<P> = BbsProof(aPrime: P, aBar: P, d: P, first: PedersenProof<P>, t2: P, second: Option<seq<int>>)

  /** The prover's state between commitment and response. */
  datatype BbsProtocol<P> = BbsProtocol(
    aPrime: P, aBar: P, d: P,
    t1: P, blinding1: int, witness1: int, blinding2: int, witness2: int,
    t2: P, blindings: seq<int>, witnesses: seq<int>)

  /** The prover's random draws.  `message[i]` blinds message i; `r1` is redrawn until it is non-zero. */
  datatype Coins = Coins(r1: int, r2: int, first1: int, first2: int, message: seq<int>, forD: int, forH0: int)

  // ---------------------------------------------------------------- index sets

  /** How many indices below `n` have membership `want` in `s`. */
  function KeepCount(n: nat, s: set<nat>, want: bool): nat {
    if n == 0 then 0 else KeepCount(n - 1, s, want) + (if (n - 1 in s) == want then 1 else 0)
  }

  /** The elements of `xs` at the indices whose membership in `s` is `want`, in order. */
  function Keep<T>(xs: seq<T>, s: set<nat>, want: bool): (r: seq<T>)
    ensures |r| == KeepCount(|xs|, s, want)
  {
    if xs == [] then []
    else
      var n := |xs| - 1;
      Keep(xs[..n], s, want) + (if (n in s) == want then [xs[n]] else [])
  }

  /** The revealed scalars laid out by index, zero where nothing is revealed. */
  function Layout(revealed: map<nat, int>, n: nat): (r: seq<int>)
    ensures |r| == n
  {
    seq(n, i requires 0 <= i < n => if i in revealed then revealed[i] else 0)
  }

  lemma {:induction false} KeepAgree<T>(xs: seq<T>, ys: seq<T>, s: set<nat>, want: bool)
    requires |xs| == |ys|
    requires forall i: nat :: i < |xs| && (i in s) == want ==> xs[i] == ys[i]
    ensures Keep(xs, s, want) == Keep(ys, s, want)
  {
    if xs != [] {
      KeepAgree(xs[..|xs| - 1], ys[..|xs| - 1], s, want);
    }
  }

  lemma {:induction false} KeepAppend<T>(xs: seq<T>, x: T, s: set<nat>, want: bool)
    ensures Keep(xs + [x], s, want) == Keep(xs, s, want) + (if (|xs| in s) == want then [x] else [])
  {
    assert (xs + [x])[..|xs|] == xs;
  }

  // ---------------------------------------------------------------- signature

  /** The commitment b = g1 + s * h0 + sum of m_i * h_i. */
  function B<P>(g: Group<P>, params: Params<P>, messages: seq<int>, s: int): P
    requires g.order > 0
  {
    g.add(Msm(g, params.h + [params.h0], messages + [s]), params.g1)
  }

  /** Signature verification under the issuer key with exponent `x`. */
  ghost predicate SignatureVerifies<P>(g: Group<P>, params: Params<P>, x: int, sig: Signature<P>, messages: seq<int>)
    requires g.order > 0
  {
    && 0 < |messages| == |params.h|
    && sig.a != g.zero
    && g.add(Times(g, x, sig.a), Sub(g, Times(g, sig.e, sig.a), B(g, params, messages, sig.s))) == g.zero
  }

  // ---------------------------------------------------------------- prover

  function InitProof<P>(g: Group<P>, params: Params<P>, sig: Signature<P>, messages: seq<int>, revealed: set<nat>,
                        coins: Coins)
    : (r: Result<BbsProtocol<P>>)
    requires Prime(g.order) && coins.r1 % g.order != 0 && |coins.message| == |messages|
    ensures r.Ok? <==> |messages| == |params.h|
    ensures r.Ok? ==> |r.value.blindings| == |r.value.witnesses|
  {
    if |messages| != |params.h| then Err(Backend("bbs pok init"))
    else
      var r3: int := Inverse(coins.r1, g.order);
      var bR1 := Times(g, coins.r1, B(g, params, messages, sig.s));
      var aPrime := Times(g, coins.r1, sig.a);
      var d := Sub(g, bR1, Times(g, coins.r2, params.h0));
      var blindings := Keep(coins.message, revealed, false) + [coins.forD, coins.forH0];
      Ok(BbsProtocol(
           aPrime,
           Sub(g, bR1, Times(g, sig.e, aPrime)),
           d,
           g.add(Times(g, coins.first1, aPrime), Times(g, coins.first2, params.h0)),
           coins.first1, -sig.e, coins.first2, coins.r2,
           Msm(g, HiddenBases(params, revealed, d), blindings),
           blindings,
           Keep(messages, revealed, false) + [-r3, (sig.s - coins.r2 * r3) % g.order]))
  }

  function FinishProof<P>(g: Group<P>, pok: BbsProtocol<P>, challenge: int): BbsProof<P>
    requires g.order > 0 && |pok.blindings| == |pok.witnesses|
  {
    BbsProof(
      pok.aPrime, pok.aBar, pok.d,
      PedersenProof(pok.t1,
                    Response(pok.blinding1, pok.witness1, challenge, g.order),
                    Response(pok.blinding2, pok.witness2, challenge, g.order)),
      pok.t2,
      Some(Responses(pok.blindings, pok.witnesses, challenge, g.order)))
  }

  // ---------------------------------------------------------------- verifier

  /** The revealed part of the commitment: the sum of m_i * h_i over the revealed indices. */
  function RevealedSum<P>(g: Group<P>, params: Params<P>, revealed: map<nat, int>): P
    requires g.order > 0
  {
    Msm(g, Keep(params.h, revealed.Keys, true), Keep(Layout(revealed, |params.h|), revealed.Keys, true))
  }

  function HiddenBases<P>(params: Params<P>, revealed: set<nat>, d: P): seq<P> {
    Keep(params.h, revealed, false) + [d, params.h0]
  }

  predicate VerifyProof<P(==)>(g: Group<P>, proof: BbsProof<P>, revealed: map<nat, int>, challenge: int, x: int,
                               params: Params<P>)
    requires g.order > 0
  {
    && proof.aPrime != g.zero
    && PedersenVerify(g, proof.first, Sub(g, proof.aBar, proof.d), proof.aPrime, params.h0, challenge)
    && proof.second.Some?
    && IsValid(g, proof.second.value, HiddenBases(params, revealed.Keys, proof.d),
               Sub(g, g.neg(RevealedSum(g, params, revealed)), params.g1), proof.t2, challenge)
    && g.add(Times(g, x, proof.aPrime), g.neg(proof.aBar)) == g.zero
  }

  /** The position of a message's response among the hidden ones, if the message is hidden. */
  function ResponseIndex(index: nat, revealed: set<nat>): (r: Option<int>)
    ensures r.None? <==> index in revealed
    ensures r.Some? ==> r.value == KeepCount(index, revealed, false)
  {
    if index in revealed then None
    else
      CountBelow(index, revealed);
      Some(index - |set i | i in revealed && i < index|)
  }

  lemma {:induction false} CountBelow(n: nat, s: set<nat>)
    ensures KeepCount(n, s, false) + |set i | i in s && i < n| == n
  {
    var below := set i | i in s && i < n;
    if n == 0 {
      assert below == {};
    } else {
      CountBelow(n - 1, s);
      var before := set i | i in s && i < n - 1;
      if n - 1 in s {
        assert below == before + {n - 1};
      } else {
        assert below == before;
      }
    }
  }

  function GetResponse<P>(proof: BbsProof<P>, index: nat, revealed: set<nat>): Option<int> {
    var i := ResponseIndex(index, revealed);
    if i.Some? && proof.second.Some? && i.value < |proof.second.value| then Some(proof.second.value[i.value]) else None
  }

  // ---------------------------------------------------------------- revealed plus hidden is everything

  lemma {:induction false} SplitSum<P(!new)>(g: Group<P>, h: seq<P>, m: seq<int>, s: set<nat>)
    requires IsGroup(g) && |h| == |m|
    ensures Msm(g, h, m)
         == g.add(Msm(g, Keep(h, s, true), Keep(m, s, true)), Msm(g, Keep(h, s, false), Keep(m, s, false)))
  {
    if h == [] {
      Units(g, g.zero);
    } else {
      var n := |h| - 1;
      SplitSum(g, h[..n], m[..n], s);
      assert h == h[..n] + [h[n]] && m == m[..n] + [m[n]];
      SplitSumStep(g, h[..n], h[n], m[..n], m[n], s);
    }
  }

  lemma SplitSumStep<P(!new)>(g: Group<P>, h: seq<P>, p: P, m: seq<int>, k: int, s: set<nat>)
    requires IsGroup(g) && |h| == |m|
    requires Msm(g, h, m)
          == g.add(Msm(g, Keep(h, s, true), Keep(m, s, true)), Msm(g, Keep(h, s, false), Keep(m, s, false)))
    ensures Msm(g, h + [p], m + [k])
         == g.add(Msm(g, Keep(h + [p], s, true), Keep(m + [k], s, true)),
                  Msm(g, Keep(h + [p], s, false), Keep(m + [k], s, false)))
  {
    var want := |h| in s;
    MsmAppend(g, h, m, [p], [k]);
    MsmOne(g, p, k);
    KeepAppend(h, p, s, true);
    KeepAppend(h, p, s, false);
    KeepAppend(m, k, s, true);
    KeepAppend(m, k, s, false);
    MsmAppend(g, Keep(h, s, want), Keep(m, s, want), [p], [k]);
    MoveLast(g, Msm(g, Keep(h, s, want), Keep(m, s, want)), Msm(g, Keep(h, s, !want), Keep(m, s, !want)),
             Times(g, k, p));
    assert Keep(h + [p], s, !want) == Keep(h, s, !want) && Keep(m + [k], s, !want) == Keep(m, s, !want);
  }

  lemma MoveLast<P(!new)>(g: Group<P>, x: P, y: P, l: P)
    requires IsGroup(g)
    ensures g.add(g.add(x, y), l) == g.add(g.add(x, l), y) == g.add(y, g.add(x, l))
    ensures g.add(g.add(y, x), l) == g.add(g.add(x, l), y)
  {
    assert AssocAt(g, x, y, l) && CommAt(g, y, l) && AssocAt(g, x, l, y);
    assert CommAt(g, g.add(x, l), y) && CommAt(g, x, y);
  }

  /** b is the revealed part, plus the hidden part, plus s * h0, plus g1. */
  lemma CommitmentSplits<P(!new)>(g: Group<P>, params: Params<P>, messages: seq<int>, s: int, revealed: map<nat, int>)
    requires IsGroup(g) && |messages| == |params.h|
    requires forall i: nat :: i in revealed && i < |messages| ==> revealed[i] == messages[i]
    ensures B(g, params, messages, s)
         == g.add(g.add(g.add(RevealedSum(g, params, revealed), HiddenSum(g, params, messages, revealed.Keys)),
                        Times(g, s, params.h0)), params.g1)
  {
    SplitSum(g, params.h, messages, revealed.Keys);
    KeepAgree(Layout(revealed, |messages|), messages, revealed.Keys, true);
    MsmAppend(g, params.h, messages, [params.h0], [s]);
    MsmOne(g, params.h0, s);
  }

  function HiddenSum<P>(g: Group<P>, params: Params<P>, messages: seq<int>, revealed: set<nat>): P
    requires g.order > 0 && |messages| == |params.h|
  {
    Msm(g, Keep(params.h, revealed, false), Keep(messages, revealed, false))
  }

  // ---------------------------------------------------------------- completeness

  lemma SignatureEquation<P(!new)>(g: Group<P>, x: int, e: int, a: P, b: P)
    requires IsGroup(g)
    ensures g.add(Times(g, x, a), Sub(g, Times(g, e, a), b)) == g.zero <==> Times(g, x + e, a) == b
  {
    TimesAdd(g, x, e, a);
    assert AssocAt(g, Times(g, x, a), Times(g, e, a), g.neg(b));
    Transpose(g, Times(g, x + e, a), b, g.zero);
    Units(g, b);
  }

  lemma PairingEquation<P(!new)>(g: Group<P>, x: int, a: P, b: P)
    requires IsGroup(g)
    ensures g.add(Times(g, x, a), g.neg(b)) == g.zero <==> Times(g, x, a) == b
  {
    Transpose(g, Times(g, x, a), b, g.zero);
    Units(g, b);
  }

  /** aBar - d is -e * aPrime + r2 * h0. */
  lemma FirstStatement<P(!new)>(g: Group<P>, b: P, e: int, aPrime: P, r2: int, h0: P)
    requires IsGroup(g)
    ensures Sub(g, Sub(g, b, Times(g, e, aPrime)), Sub(g, b, Times(g, r2, h0)))
         == g.add(Times(g, -e, aPrime), Times(g, r2, h0))
  {
    var u, v := Times(g, e, aPrime), Times(g, r2, h0);
    NegAdd(g, b, g.neg(v));
    Swap(g, b, g.neg(u), g.neg(b), g.neg(g.neg(v)));
    Units(g, b);
    Units(g, v);
    NegUnique(g, g.neg(v), v);
    Units(g, g.add(g.neg(u), v));
    TimesNeg(g, e, aPrime);
  }

  lemma UndoNegTimes<P(!new)>(g: Group<P>, r1: int, r3: int, p: P)
    requires IsGroup(g) && (r1 * r3) % g.order == 1
    ensures Times(g, -r3, Times(g, r1, p)) == g.neg(p)
  {
    UndoTimes(g, r1, r3, p);
    TimesNeg(g, r3, Times(g, r1, p));
  }

  lemma TimesOfResidue<P(!new)>(g: Group<P>, k: int, p: P)
    requires IsGroup(g)
    ensures Times(g, k % g.order, p) == Times(g, k, p)
  {
    ResidueOfResidue(k, g.order);
  }

  lemma RecombineBlinding<P(!new)>(g: Group<P>, h0: P, r2: int, r3: int, s: int)
    requires IsGroup(g)
    ensures g.add(Times(g, -r3, g.neg(Times(g, r2, h0))), Times(g, (s - r2 * r3) % g.order, h0)) == Times(g, s, h0)
  {
    TimesNeg(g, -r3, Times(g, r2, h0));
    TimesTimes(g, r3, r2, h0);
    TimesOfResidue(g, s - r2 * r3, h0);
    TimesAdd(g, r3 * r2, s - r2 * r3, h0);
    assert r3 * r2 + (s - r2 * r3) == s;
  }

  /** -r3 * d + s' * h0 is s * h0 - b. */
  lemma SecondTail<P(!new)>(g: Group<P>, b: P, h0: P, r1: int, r2: int, r3: int, s: int)
    requires IsGroup(g) && (r1 * r3) % g.order == 1
    ensures g.add(Times(g, -r3, Sub(g, Times(g, r1, b), Times(g, r2, h0))), Times(g, (s - r2 * r3) % g.order, h0))
         == g.add(g.neg(b), Times(g, s, h0))
  {
    var d1, d2 := Times(g, r1, b), Times(g, r2, h0);
    TimesOverAdd(g, -r3, d1, g.neg(d2));
    UndoNegTimes(g, r1, r3, b);
    RecombineBlinding(g, h0, r2, r3, s);
    assert AssocAt(g, g.neg(b), Times(g, -r3, g.neg(d2)), Times(g, (s - r2 * r3) % g.order, h0));
  }

  lemma Balance<P(!new)>(g: Group<P>, rev: P, hid: P, s: P, g1: P, b: P)
    requires IsGroup(g)
    ensures b == g.add(g.add(g.add(rev, hid), s), g1)
       <==> g.add(hid, g.add(g.neg(b), s)) == Sub(g, g.neg(rev), g1)
  {
    var x, y := g.add(hid, s), g.add(g.neg(rev), g.neg(g1));
    // b == (rev + x) + g1 == (rev + g1) + x
    assert AssocAt(g, rev, hid, s);
    MoveLast(g, rev, x, g1);
    var rg := g.add(rev, g1);
    NegAdd(g, rev, g1);
    // b == rg + x <==> b - x == rg <==> x - b == -rg
    assert AssocAt(g, hid, g.neg(b), s) && CommAt(g, hid, g.neg(b)) && AssocAt(g, g.neg(b), hid, s);
    assert CommAt(g, g.neg(b), x);
    assert g.add(hid, g.add(g.neg(b), s)) == Sub(g, x, b);
    Transpose(g, x, b, g.neg(rg));
    Transpose(g, b, rg, x);
    assert CommAt(g, b, g.neg(rg));
  }

  /** The prover's witnesses open the second statement. */
  lemma SecondStatement<P(!new)>(g: Group<P>, params: Params<P>, messages: seq<int>, revealed: map<nat, int>, s: int,
                                 d: P, k: int, s': int)
    requires IsGroup(g) && |messages| == |params.h|
    requires forall i: nat :: i in revealed && i < |messages| ==> revealed[i] == messages[i]
    requires g.add(Times(g, k, d), Times(g, s', params.h0))
          == g.add(g.neg(B(g, params, messages, s)), Times(g, s, params.h0))
    ensures Msm(g, HiddenBases(params, revealed.Keys, d), Keep(messages, revealed.Keys, false) + [k, s'])
         == Sub(g, g.neg(RevealedSum(g, params, revealed)), params.g1)
  {
    MsmAppend(g, Keep(params.h, revealed.Keys, false), Keep(messages, revealed.Keys, false), [d, params.h0], [k, s']);
    MsmTwo(g, d, params.h0, k, s');
    CommitmentSplits(g, params, messages, s, revealed);
    Balance(g, RevealedSum(g, params, revealed), HiddenSum(g, params, messages, revealed.Keys), Times(g, s, params.h0),
            params.g1, B(g, params, messages, s));
  }

  /** x * aPrime = aBar for the randomised signature exactly when the signature equation holds. */
  lemma RandomisedPairing<P(!new)>(g: Group<P>, x: int, e: int, a: P, b: P, r1: int)
    requires IsGroup(g) && r1 % g.order != 0
    ensures Times(g, x, Times(g, r1, a)) == Sub(g, Times(g, r1, b), Times(g, e, Times(g, r1, a)))
       <==> Times(g, x + e, a) == b
    ensures Times(g, r1, a) == g.zero <==> a == g.zero
  {
    var a' := Times(g, r1, a);
    Transpose(g, Times(g, r1, b), Times(g, e, a'), Times(g, x, a'));
    assert CommAt(g, Times(g, e, a'), Times(g, x, a'));
    TimesAdd(g, x, e, a');
    TimesTimes(g, x + e, r1, a);
    TimesTimes(g, r1, x + e, a);
    assert (x + e) * r1 == r1 * (x + e);
    TimesCancel(g, r1, Times(g, x + e, a), b);
    TimesCancel(g, r1, a, g.zero);
    TimesZeroPoint(g, r1);
  }

  lemma HonestFirst<P(!new)>(g: Group<P>, b: P, aPrime: P, e: int, r2: int, h0: P, k1: int, k2: int, challenge: int)
    requires IsGroup(g)
    ensures PedersenVerify(g,
        PedersenProof(g.add(Times(g, k1, aPrime), Times(g, k2, h0)), Response(k1, -e, challenge, g.order),
                      Response(k2, r2, challenge, g.order)),
        Sub(g, Sub(g, b, Times(g, e, aPrime)), Sub(g, b, Times(g, r2, h0))), aPrime, h0, challenge)
  {
    var t := g.add(Times(g, k1, aPrime), Times(g, k2, h0));
    var y := Sub(g, Sub(g, b, Times(g, e, aPrime)), Sub(g, b, Times(g, r2, h0)));
    var z1, z2 := Response(k1, -e, challenge, g.order), Response(k2, r2, challenge, g.order);
    FirstStatement(g, b, e, aPrime, r2, h0);
    MsmTwo(g, aPrime, h0, -e, r2);
    MsmTwo(g, aPrime, h0, k1, k2);
    HonestOpens(g, [aPrime, h0], [k1, k2], [-e, r2], y, challenge);
    assert Responses([k1, k2], [-e, r2], challenge, g.order) == [z1, z2];
    PedersenOpens(g, PedersenProof(t, z1, z2), y, aPrime, h0, challenge);
  }

  lemma HonestSecond<P(!new)>(g: Group<P>, bases: seq<P>, blindings: seq<int>, witnesses: seq<int>, y: P,
                              challenge: int)
    requires IsGroup(g) && |bases| == |blindings| == |witnesses| && Msm(g, bases, witnesses) == y
    ensures IsValid(g, Responses(blindings, witnesses, challenge, g.order), bases, y, Msm(g, bases, blindings),
                    challenge)
  {
    HonestOpens(g, bases, blindings, witnesses, y, challenge);
    ValidOpens(g, Responses(blindings, witnesses, challenge, g.order), bases, y, Msm(g, bases, blindings), challenge);
  }

  /** Whatever the signature, the prover's witnesses open the first Schnorr statement ... */
  lemma HonestFirstSchnorr<P(!new)>(g: Group<P>, params: Params<P>, sig: Signature<P>, messages: seq<int>,
                                    revealed: map<nat, int>, coins: Coins, challenge: int)
    requires IsGroup(g) && coins.r1 % g.order != 0
    requires |messages| == |params.h| == |coins.message|
    ensures
      var pok := InitProof(g, params, sig, messages, revealed.Keys, coins).value;
      PedersenVerify(g, FinishProof(g, pok, challenge).first, Sub(g, pok.aBar, pok.d), pok.aPrime, params.h0, challenge)
  {
    var b := B(g, params, messages, sig.s);
    HonestFirst(g, Times(g, coins.r1, b), Times(g, coins.r1, sig.a), sig.e, coins.r2, params.h0, coins.first1,
                coins.first2, challenge);
  }

  /** ... and the second. */
  lemma HonestSecondSchnorr<P(!new)>(g: Group<P>, params: Params<P>, sig: Signature<P>, messages: seq<int>,
                                     revealed: map<nat, int>, coins: Coins, challenge: int)
    requires IsGroup(g) && coins.r1 % g.order != 0
    requires |messages| == |params.h| == |coins.message|
    requires forall i: nat :: i in revealed && i < |messages| ==> revealed[i] == messages[i]
    ensures
      var pok := InitProof(g, params, sig, messages, revealed.Keys, coins).value;
      IsValid(g, FinishProof(g, pok, challenge).second.value, HiddenBases(params, revealed.Keys, pok.d),
              Sub(g, g.neg(RevealedSum(g, params, revealed)), params.g1), pok.t2, challenge)
  {
    var pok := InitProof(g, params, sig, messages, revealed.Keys, coins).value;
    var r3: int := Inverse(coins.r1, g.order);
    var s' := (sig.s - coins.r2 * r3) % g.order;
    SecondTail(g, B(g, params, messages, sig.s), params.h0, coins.r1, coins.r2, r3, sig.s);
    SecondStatement(g, params, messages, revealed, sig.s, pok.d, -r3, s');
    HonestSecond(g, HiddenBases(params, revealed.Keys, pok.d), pok.blindings, pok.witnesses,
                 Sub(g, g.neg(RevealedSum(g, params, revealed)), params.g1), challenge);
  }

  /** The randomised signature passes the pairing check exactly when the signature verifies. */
  lemma HonestPairing<P(!new)>(g: Group<P>, params: Params<P>, sig: Signature<P>, messages: seq<int>,
                               revealed: set<nat>, coins: Coins, x: int)
    requires IsGroup(g) && coins.r1 % g.order != 0
    requires 0 < |messages| == |params.h| == |coins.message|
    ensures
      var pok := InitProof(g, params, sig, messages, revealed, coins).value;
      pok.aPrime != g.zero && g.add(Times(g, x, pok.aPrime), g.neg(pok.aBar)) == g.zero
      <==> SignatureVerifies(g, params, x, sig, messages)
  {
    var pok := InitProof(g, params, sig, messages, revealed, coins).value;
    var b := B(g, params, messages, sig.s);
    PairingEquation(g, x, pok.aPrime, pok.aBar);
    RandomisedPairing(g, x, sig.e, sig.a, b, coins.r1);
    SignatureEquation(g, x, sig.e, sig.a, b);
  }

  /** The proof an honest prover makes verifies exactly when its signature does, for every choice of
      randomness, every revealed set and every challenge. */
  lemma HonestProof<P(!new)>(g: Group<P>, params: Params<P>, sig: Signature<P>, messages: seq<int>,
                             revealed: map<nat, int>, coins: Coins, challenge: int, x: int)
    requires IsGroup(g) && coins.r1 % g.order != 0
    requires 0 < |messages| == |params.h| == |coins.message|
    requires forall i: nat :: i in revealed && i < |messages| ==> revealed[i] == messages[i]
    ensures
      var pok := InitProof(g, params, sig, messages, revealed.Keys, coins).value;
      VerifyProof(g, FinishProof(g, pok, challenge), revealed, challenge, x, params)
      <==> SignatureVerifies(g, params, x, sig, messages)
  {
    HonestFirstSchnorr(g, params, sig, messages, revealed, coins, challenge);
    HonestSecondSchnorr(g, params, sig, messages, revealed, coins, challenge);
    HonestPairing(g, params, sig, messages, revealed.Keys, coins, x);
  }

  // ---------------------------------------------------------------- extraction

  /** All messages of a credential, the revealed ones given and the hidden ones extracted. */
  ghost function Assemble(given: seq<int>, s: set<nat>, hidden: seq<int>): (m: seq<int>)
    requires |hidden| == KeepCount(|given|, s, false)
    ensures |m| == |given|
  {
    if given == [] then []
    else
      var n, k := |given| - 1, |hidden| - 1;
      if n in s then Assemble(given[..n], s, hidden) + [given[n]]
      else Assemble(given[..n], s, hidden[..k]) + [hidden[k]]
  }

  lemma {:induction false} AssembleRevealed(given: seq<int>, s: set<nat>, hidden: seq<int>, i: nat)
    requires |hidden| == KeepCount(|given|, s, false)
    requires i < |given| && i in s
    ensures Assemble(given, s, hidden)[i] == given[i]
  {
    var n, k := |given| - 1, |hidden| - 1;
    if i < n {
      AssembleRevealed(given[..n], s, if n in s then hidden else hidden[..k], i);
    }
  }

  lemma {:induction false} AssembleHidden(given: seq<int>, s: set<nat>, hidden: seq<int>)
    requires |hidden| == KeepCount(|given|, s, false)
    ensures Keep(Assemble(given, s, hidden), s, false) == hidden
    decreases |given|
  {
    if given != [] {
      var n, k := |given| - 1, |hidden| - 1;
      var x, front := if n in s then given[n] else hidden[k], if n in s then hidden else hidden[..k];
      AssembleHidden(given[..n], s, front);
      var m := Assemble(given[..n], s, front);
      assert Assemble(given, s, hidden) == m + [x];
      KeepSnoc(m, x, s, front, hidden);
    }
  }

  lemma KeepSnoc(m: seq<int>, x: int, s: set<nat>, front: seq<int>, hidden: seq<int>)
    requires Keep(m, s, false) == front
    requires |m| in s ==> hidden == front
    requires |m| !in s ==> hidden != [] && front == hidden[..|hidden| - 1] && x == hidden[|hidden| - 1]
    ensures Keep(m + [x], s, false) == hidden
  {
    KeepAppend(m, x, s, false);
  }

  /** From openings of both Schnorr statements and the pairing equation, a signature equation. */
  lemma SignatureFromOpenings<P(!new)>(g: Group<P>, params: Params<P>, revealed: map<nat, int>, messages: seq<int>,
                                       aPrime: P, aBar: P, d: P, x: int, eps: int, tau: int, rho: int, sigma: int,
                                       s: int)
    requires IsGroup(g) && |messages| == |params.h| && s == sigma - rho * tau
    requires forall i: nat :: i in revealed && i < |messages| ==> revealed[i] == messages[i]
    requires Times(g, x, aPrime) == aBar
    requires g.add(Times(g, eps, aPrime), Times(g, tau, params.h0)) == Sub(g, aBar, d)
    requires g.add(HiddenSum(g, params, messages, revealed.Keys), g.add(Times(g, rho, d), Times(g, sigma, params.h0)))
          == Sub(g, g.neg(RevealedSum(g, params, revealed)), params.g1)
    ensures Times(g, x - eps, Times(g, -rho, aPrime)) == B(g, params, messages, s)
  {
    var h0 := params.h0;
    // v := (x - eps) * aPrime is d + tau * h0
    var u, v := Times(g, eps, aPrime), Times(g, x - eps, aPrime);
    var th := Times(g, tau, h0);
    TimesSub(g, x, eps, aPrime);
    Transpose(g, aBar, u, v);
    Transpose(g, aBar, d, g.add(u, th));
    assert AssocAt(g, d, u, th) && CommAt(g, d, u) && AssocAt(g, u, d, th);
    Cancel(g, u, v, g.add(d, th));
    assert v == g.add(d, th);
    // b := -rho * v
    var b := Times(g, -rho, v);
    TimesTimes(g, x - eps, -rho, aPrime);
    TimesTimes(g, -rho, x - eps, aPrime);
    assert (x - eps) * -rho == -rho * (x - eps);
    // -b + s * h0 == rho * d + sigma * h0
    TimesNeg(g, rho, v);
    Units(g, Times(g, rho, v));
    NegUnique(g, b, Times(g, rho, v));
    TimesOverAdd(g, rho, d, th);
    TimesTimes(g, rho, tau, h0);
    TimesAdd(g, rho * tau, s, h0);
    assert rho * tau + s == sigma;
    assert AssocAt(g, Times(g, rho, d), Times(g, rho * tau, h0), Times(g, s, h0));
    assert g.add(g.neg(b), Times(g, s, h0)) == g.add(Times(g, rho, d), Times(g, sigma, h0));
    CommitmentSplits(g, params, messages, s, revealed);
    Balance(g, RevealedSum(g, params, revealed), HiddenSum(g, params, messages, revealed.Keys), Times(g, s, h0),
            params.g1, b);
  }

  /** Two finished proofs of the same commitments. */
  ghost predicate SameCommitments<P>(p: BbsProof<P>, q: BbsProof<P>) {
    p.aPrime == q.aPrime && p.aBar == q.aBar && p.d == q.d && p.first.t == q.first.t && p.t2 == q.t2
  }

  /** Two accepted answers to different challenges on the same commitments. */
  datatype ForkCase<P> = ForkCase(params: Params<P>, revealed: map<nat, int>, x: int, p: BbsProof<P>, c: int,
                                  q: BbsProof<P>, c': int)

  ghost predicate Fork<P>(g: Group<P>, f: ForkCase<P>)
    requires g.order > 0
  {
    && SameCommitments(f.p, f.q)
    && (f.c - f.c') % g.order != 0
    && VerifyProof(g, f.p, f.revealed, f.c, f.x, f.params)
    && VerifyProof(g, f.q, f.revealed, f.c', f.x, f.params)
  }

  /** The witnesses of the second Schnorr statement: the hidden messages, then rho for d and sigma for h0. */
  ghost function SecondWitnesses<P>(g: Group<P>, f: ForkCase<P>): (w: seq<int>)
    requires Prime(g.order) && Fork(g, f)
    ensures |w| == KeepCount(|f.params.h|, f.revealed.Keys, false) + 2
  {
    Extract(f.p.second.value, f.q.second.value, f.c, f.c', g.order)
  }

  /** The multiplier of `d` that a fork gives up ... */
  ghost function Rho<P>(g: Group<P>, f: ForkCase<P>): int
    requires Prime(g.order) && Fork(g, f)
  {
    var w := SecondWitnesses(g, f);
    w[|w| - 2]
  }

  /** ... and that of `h0`. */
  ghost function Sigma<P>(g: Group<P>, f: ForkCase<P>): int
    requires Prime(g.order) && Fork(g, f)
  {
    var w := SecondWitnesses(g, f);
    w[|w| - 1]
  }

  ghost function ExtractedMessages<P>(g: Group<P>, f: ForkCase<P>): (m: seq<int>)
    requires Prime(g.order) && Fork(g, f)
    ensures |m| == |f.params.h|
  {
    var w := SecondWitnesses(g, f);
    Assemble(Layout(f.revealed, |f.params.h|), f.revealed.Keys, w[..|w| - 2])
  }

  ghost function ExtractedSignature<P>(g: Group<P>, f: ForkCase<P>): Signature<P>
    requires Prime(g.order) && Fork(g, f)
  {
    var eps := ExtractScalar(f.p.first.response1, f.q.first.response1, f.c, f.c', g.order);
    var tau := ExtractScalar(f.p.first.response2, f.q.first.response2, f.c, f.c', g.order);
    Signature(Times(g, -Rho(g, f), f.p.aPrime), -eps, Sigma(g, f) - Rho(g, f) * tau)
  }

  lemma FirstWitnessesOpen<P(!new)>(g: Group<P>, f: ForkCase<P>)
    requires IsGroup(g) && Fork(g, f)
    ensures g.add(Times(g, ExtractScalar(f.p.first.response1, f.q.first.response1, f.c, f.c', g.order), f.p.aPrime),
                  Times(g, ExtractScalar(f.p.first.response2, f.q.first.response2, f.c, f.c', g.order), f.params.h0))
         == Sub(g, f.p.aBar, f.p.d)
  {
    var y, a, h0 := Sub(g, f.p.aBar, f.p.d), f.p.aPrime, f.params.h0;
    PedersenOpens(g, f.p.first, y, a, h0, f.c);
    PedersenOpens(g, f.q.first, y, a, h0, f.c');
    var z, z' := [f.p.first.response1, f.p.first.response2], [f.q.first.response1, f.q.first.response2];
    ExtractOpens(g, [a, h0], y, f.p.first.t, f.c, z, f.c', z');
    var eps, tau := ExtractScalar(z[0], z'[0], f.c, f.c', g.order), ExtractScalar(z[1], z'[1], f.c, f.c', g.order);
    assert Extract(z, z', f.c, f.c', g.order) == [eps, tau];
    MsmTwo(g, a, h0, eps, tau);
  }

  lemma SecondWitnessesOpen<P(!new)>(g: Group<P>, f: ForkCase<P>)
    requires IsGroup(g) && Fork(g, f)
    ensures
      var m := ExtractedMessages(g, f);
      g.add(HiddenSum(g, f.params, m, f.revealed.Keys),
            g.add(Times(g, Rho(g, f), f.p.d), Times(g, Sigma(g, f), f.params.h0)))
      == Sub(g, g.neg(RevealedSum(g, f.params, f.revealed)), f.params.g1)
  {
    var bases := HiddenBases(f.params, f.revealed.Keys, f.p.d);
    var y := Sub(g, g.neg(RevealedSum(g, f.params, f.revealed)), f.params.g1);
    ValidOpens(g, f.p.second.value, bases, y, f.p.t2, f.c);
    ValidOpens(g, f.q.second.value, bases, y, f.p.t2, f.c');
    ExtractOpens(g, bases, y, f.p.t2, f.c, f.p.second.value, f.c', f.q.second.value);
    var w := SecondWitnesses(g, f);
    var k := |w| - 2;
    assert w == w[..k] + [w[k], w[k + 1]];
    MsmAppend(g, Keep(f.params.h, f.revealed.Keys, false), w[..k], [f.p.d, f.params.h0], [w[k], w[k + 1]]);
    MsmTwo(g, f.p.d, f.params.h0, w[k], w[k + 1]);
    AssembleHidden(Layout(f.revealed, |f.params.h|), f.revealed.Keys, w[..k]);
  }

  lemma ExtractedAgreesWithRevealed<P(!new)>(g: Group<P>, f: ForkCase<P>)
    requires IsGroup(g) && Fork(g, f)
    ensures forall i: nat :: i in f.revealed && i < |f.params.h| ==>
              ExtractedMessages(g, f)[i] == f.revealed[i]
  {
    var w := SecondWitnesses(g, f);
    forall i: nat | i in f.revealed && i < |f.params.h|
      ensures ExtractedMessages(g, f)[i] == f.revealed[i]
    {
      AssembleRevealed(Layout(f.revealed, |f.params.h|), f.revealed.Keys, w[..|w| - 2], i);
    }
  }

  lemma ForkPairing<P(!new)>(g: Group<P>, f: ForkCase<P>)
    requires IsGroup(g) && Fork(g, f)
    ensures Times(g, f.x, f.p.aPrime) == f.p.aBar && f.p.aPrime != g.zero
  {
    PairingEquation(g, f.x, f.p.aPrime, f.p.aBar);
  }

  lemma ForkSatisfiesEquation<P(!new)>(g: Group<P>, f: ForkCase<P>)
    requires IsGroup(g) && Fork(g, f)
    ensures
      var sig := ExtractedSignature(g, f);
      Times(g, f.x + sig.e, sig.a) == B(g, f.params, ExtractedMessages(g, f), sig.s)
  {
    var eps := ExtractScalar(f.p.first.response1, f.q.first.response1, f.c, f.c', g.order);
    var tau := ExtractScalar(f.p.first.response2, f.q.first.response2, f.c, f.c', g.order);
    ExtractedAgreesWithRevealed(g, f);
    FirstWitnessesOpen(g, f);
    SecondWitnessesOpen(g, f);
    ForkPairing(g, f);
    SignatureFromOpenings(g, f.params, f.revealed, ExtractedMessages(g, f), f.p.aPrime, f.p.aBar, f.p.d, f.x,
                          eps, tau, Rho(g, f), Sigma(g, f), ExtractedSignature(g, f).s);
  }

  /** What a fork yields: messages that contain everything revealed and a tuple satisfying the signature
      equation on them.  The tuple is a valid signature exactly when the extracted multiplier of `d` is not
      zero; otherwise the generators sum to the identity with these messages. */
  ghost predicate CredentialExtracted<P>(g: Group<P>, f: ForkCase<P>, m: seq<int>, sig: Signature<P>)
    requires Prime(g.order) && Fork(g, f)
  {
    && |m| == |f.params.h|
    && (forall i: nat :: i in f.revealed && i < |m| ==> m[i] == f.revealed[i])
    && Times(g, f.x + sig.e, sig.a) == B(g, f.params, m, sig.s)
    && (SignatureVerifies(g, f.params, f.x, sig, m) <==> Rho(g, f) % g.order != 0)
    && (Rho(g, f) % g.order == 0 ==> B(g, f.params, m, sig.s) == g.zero)
  }

  /** Knowledge soundness of the BBS+ proof. */
  lemma ForkYieldsSignature<P(!new)>(g: Group<P>, f: ForkCase<P>)
    requires IsGroup(g) && Fork(g, f) && 0 < |f.params.h|
    ensures CredentialExtracted(g, f, ExtractedMessages(g, f), ExtractedSignature(g, f))
  {
    var sig := ExtractedSignature(g, f);
    ExtractedAgreesWithRevealed(g, f);
    ForkSatisfiesEquation(g, f);
    ExtractedSignatureIsValid(g, f.params, f.x, ExtractedMessages(g, f), f.p.aPrime, Rho(g, f), sig.e, sig.s);
  }

  lemma ExtractedSignatureIsValid<P(!new)>(g: Group<P>, params: Params<P>, x: int, m: seq<int>, aPrime: P, rho: int,
                                           e: int, s: int)
    requires IsGroup(g) && aPrime != g.zero && 0 < |m| == |params.h|
    requires Times(g, x + e, Times(g, -rho, aPrime)) == B(g, params, m, s)
    ensures SignatureVerifies(g, params, x, Signature(Times(g, -rho, aPrime), e, s), m) <==> rho % g.order != 0
    ensures rho % g.order == 0 ==> B(g, params, m, s) == g.zero
  {
    var a := Times(g, -rho, aPrime);
    SignatureEquation(g, x, e, a, B(g, params, m, s));
    OnlyOrderAnnihilates(g, -rho, aPrime);
    NegResidue(rho, g.order);
    TimesZeroPoint(g, x + e);
  }

  lemma NegResidue(k: int, r: nat)
    requires r > 0
    ensures -k % r == 0 <==> k % r == 0
  {
    DivMod(k, r);
    DivMod(-k, r);
    if k % r == 0 {
      assert (-(k / r)) * r == -(k / r * r);
      SameResidue(-k, 0, -(k / r), r);
    }
    if -k % r == 0 {
      assert (-(-k / r)) * r == -(-k / r * r);
      SameResidue(k, 0, -(-k / r), r);
    }
  }

  /** The response the verifier looks up for a hidden message is the one its witness is extracted from. */
  lemma {:induction false} KeepAt<T>(xs: seq<T>, s: set<nat>, i: nat)
    requires i < |xs| && i !in s
    ensures KeepCount(i, s, false) < KeepCount(|xs|, s, false)
    ensures Keep(xs, s, false)[KeepCount(i, s, false)] == xs[i]
  {
    var n := |xs| - 1;
    if i < n {
      KeepAt(xs[..n], s, i);
    }
  }

  lemma ExtractedAt<P(!new)>(g: Group<P>, f: ForkCase<P>, i: nat)
    requires IsGroup(g) && Fork(g, f)
    requires i < |f.params.h| && i !in f.revealed
    ensures GetResponse(f.p, i, f.revealed.Keys).Some? && GetResponse(f.q, i, f.revealed.Keys).Some?
    ensures ExtractedMessages(g, f)[i]
         == ExtractScalar(GetResponse(f.p, i, f.revealed.Keys).value, GetResponse(f.q, i, f.revealed.Keys).value, f.c,
                          f.c', g.order)
  {
    var m := ExtractedMessages(g, f);
    var w := SecondWitnesses(g, f);
    KeepAt(m, f.revealed.Keys, i);
    AssembleHidden(Layout(f.revealed, |f.params.h|), f.revealed.Keys, w[..|w| - 2]);
  }

  // ---------------------------------------------------------------- one proof, one challenge

  /** Both Schnorr statements are the identity: the proof says nothing. */
  ghost predicate Degenerate<P>(g: Group<P>, params: Params<P>, proof: BbsProof<P>, revealed: map<nat, int>)
    requires g.order > 0
  {
    Sub(g, proof.aBar, proof.d) == g.zero && Sub(g, g.neg(RevealedSum(g, params, revealed)), params.g1) == g.zero
  }

  /** A proof accepted for one challenge is accepted for another exactly when the challenges are the same
      field element or both of its statements are the identity. */
  lemma AcceptedAgain<P(!new)>(g: Group<P>, params: Params<P>, proof: BbsProof<P>, revealed: map<nat, int>, x: int,
                               c: int, c': int)
    requires IsGroup(g) && VerifyProof(g, proof, revealed, c, x, params)
    ensures VerifyProof(g, proof, revealed, c', x, params)
       <==> (c - c') % g.order == 0 || Degenerate(g, params, proof, revealed)
  {
    var y1, y2 := Sub(g, proof.aBar, proof.d), Sub(g, g.neg(RevealedSum(g, params, revealed)), params.g1);
    var z1, bases := [proof.first.response1, proof.first.response2], HiddenBases(params, revealed.Keys, proof.d);
    PedersenOpens(g, proof.first, y1, proof.aPrime, params.h0, c);
    PedersenOpens(g, proof.first, y1, proof.aPrime, params.h0, c');
    SameResponsesSameChallenge(g, [proof.aPrime, params.h0], y1, proof.first.t, c, c', z1);
    ValidOpens(g, proof.second.value, bases, y2, proof.t2, c);
    ValidOpens(g, proof.second.value, bases, y2, proof.t2, c');
    SameResponsesSameChallenge(g, bases, y2, proof.t2, c, c', proof.second.value);
  }

  /** The pairing equation alone ties a proof to one issuer key, whatever is revealed and challenged. */
  lemma OneProofOneKey<P(!new)>(g: Group<P>, proof: BbsProof<P>, params: Params<P>, revealed: map<nat, int>, c: int,
                                x: int, params': Params<P>, revealed': map<nat, int>, c': int, x': int)
    requires IsGroup(g)
    requires VerifyProof(g, proof, revealed, c, x, params) && VerifyProof(g, proof, revealed', c', x', params')
    ensures x % g.order == x' % g.order
  {
    PairingEquation(g, x, proof.aPrime, proof.aBar);
    PairingEquation(g, x', proof.aPrime, proof.aBar);
    TimesInjective(g, x, x', proof.aPrime);
  }

  /** The first statement alone ties a proof to one challenge, whatever is revealed and under whatever key, unless
      it is the identity. */
  lemma FirstAnswersOneChallenge<P(!new)>(g: Group<P>, params: Params<P>, proof: BbsProof<P>, revealed: map<nat, int>,
                                          x: int, c: int, revealed': map<nat, int>, x': int, c': int)
    requires IsGroup(g)
    requires VerifyProof(g, proof, revealed, c, x, params) && VerifyProof(g, proof, revealed', c', x', params)
    ensures (c - c') % g.order == 0 || proof.aBar == proof.d
  {
    var y := Sub(g, proof.aBar, proof.d);
    PedersenOpens(g, proof.first, y, proof.aPrime, params.h0, c);
    PedersenOpens(g, proof.first, y, proof.aPrime, params.h0, c');
    SameResponsesSameChallenge(g, [proof.aPrime, params.h0], y, proof.first.t, c, c',
                               [proof.first.response1, proof.first.response2]);
    Transpose(g, proof.aBar, proof.d, g.zero);
    Units(g, proof.d);
  }
}
