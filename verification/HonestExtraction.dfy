/** The extractor run against an honest prover: it gives back the very credential the proof was made from. */
module HonestExtraction {
  import opened Wrappers
  import opened PrimeGroup
  import opened Schnorr
  import opened BbsPlus

  /** A credential, what of it is shown, and the coins of one proof. */
  datatype Prover<P> = Prover(params: Params<P>, sig: Signature<P>, messages: seq<int>, revealed: map<nat, int>,
                              coins: Coins)

  ghost predicate Honest<P>(g: Group<P>, u: Prover<P>) {
    && Prime(g.order)
    && u.coins.r1 % g.order != 0
    && 0 < |u.messages| == |u.params.h| == |u.coins.message|
    && (forall i: nat :: i in u.revealed && i < |u.messages| ==> u.revealed[i] == u.messages[i])
    && (forall i :: 0 <= i < |u.messages| ==> 0 <= u.messages[i] < g.order)
  }

  function Commitments<P>(g: Group<P>, u: Prover<P>): (pok: BbsProtocol<P>)
    requires Prime(g.order) && u.coins.r1 % g.order != 0 && |u.messages| == |u.params.h| == |u.coins.message|
    ensures |pok.blindings| == |pok.witnesses|
  {
    InitProof(g, u.params, u.sig, u.messages, u.revealed.Keys, u.coins).value
  }

  /** The prover's answers to both challenges, from one set of commitments. */
  ghost predicate AnswersBoth<P>(g: Group<P>, u: Prover<P>, f: ForkCase<P>)
    requires Honest(g, u)
  {
    && f.params == u.params && f.revealed == u.revealed
    && f.p == FinishProof(g, Commitments(g, u), f.c)
    && f.q == FinishProof(g, Commitments(g, u), f.c')
    && (f.c - f.c') % g.order != 0
  }

  /** Answering two challenges honestly is a fork exactly when the signature is valid. */
  lemma HonestAnswersFork<P(!new)>(g: Group<P>, u: Prover<P>, f: ForkCase<P>)
    requires IsGroup(g) && Honest(g, u) && AnswersBoth(g, u, f)
    ensures Fork(g, f) <==> SignatureVerifies(g, u.params, f.x, u.sig, u.messages)
  {
    HonestProof(g, u.params, u.sig, u.messages, u.revealed, u.coins, f.c, f.x);
    HonestProof(g, u.params, u.sig, u.messages, u.revealed, u.coins, f.c', f.x);
  }

  lemma SecondRecovered<P(!new)>(g: Group<P>, u: Prover<P>, f: ForkCase<P>, i: nat)
    requires IsGroup(g) && Honest(g, u) && AnswersBoth(g, u, f) && Fork(g, f)
    requires i < |Commitments(g, u).witnesses|
    ensures |SecondWitnesses(g, f)| == |Commitments(g, u).witnesses|
    ensures SecondWitnesses(g, f)[i] == Commitments(g, u).witnesses[i] % g.order
  {
    var pok := Commitments(g, u);
    ExtractHonest(pok.blindings[i], pok.witnesses[i], f.c, f.c', g.order);
  }

  lemma HiddenRecovered<P(!new)>(g: Group<P>, u: Prover<P>, f: ForkCase<P>, i: nat)
    requires IsGroup(g) && Honest(g, u) && AnswersBoth(g, u, f) && Fork(g, f)
    requires i < |u.messages| && i !in u.revealed
    ensures ExtractedMessages(g, f)[i] == u.messages[i]
  {
    var k := KeepCount(i, u.revealed.Keys, false);
    ExtractedAt(g, f, i);
    KeepAt(u.messages, u.revealed.Keys, i);
    SecondRecovered(g, u, f, k);
    SmallResidue(u.messages[i], g.order);
  }

  /** The extracted messages are the signed ones, revealed and hidden. */
  lemma MessagesRecovered<P(!new)>(g: Group<P>, u: Prover<P>, f: ForkCase<P>)
    requires IsGroup(g) && Honest(g, u) && AnswersBoth(g, u, f) && Fork(g, f)
    ensures ExtractedMessages(g, f) == u.messages
  {
    ExtractedAgreesWithRevealed(g, f);
    forall i | 0 <= i < |u.messages| ensures ExtractedMessages(g, f)[i] == u.messages[i] {
      if i !in u.revealed {
        HiddenRecovered(g, u, f, i);
      }
    }
  }

  // ---------------------------------------------------------------- the signature

  lemma NegOfNegResidue(k: int, r: nat)
    requires r > 0
    ensures -(-k % r) % r == k % r
  {
    DivMod(-k, r);
    SameResidue(-(-k % r), k, -k / r, r);
  }

  /** sigma - rho * tau is s again: (s - r2 * r3) - (-r3) * r2. */
  lemma BlindingCancels(s: int, r2: int, r3: int, r: nat)
    requires r > 0
    ensures ((s - r2 * r3) % r % r - -r3 % r * (r2 % r)) % r == s % r
  {
    var x, y := s - r2 * r3, -r3 % r * (r2 % r);
    ResidueOfResidue(x, r);
    ResidueOfProduct(-r3, r2, r);
    DivMod(x, r);
    DivMod(y, r);
    DivMod(-r3 * r2, r);
    assert -r3 * r2 == -(r2 * r3);
    var q := -r3 * r2 / r - y / r - x / r;
    assert q * r == -r3 * r2 / r * r - y / r * r - x / r * r;
    SameResidue(x % r - y, s, q, r);
  }

  lemma ARecovered<P(!new)>(g: Group<P>, a: P, r1: int, r3: int)
    requires IsGroup(g) && (r1 * r3) % g.order == 1
    ensures Times(g, -(-r3 % g.order), Times(g, r1, a)) == a
  {
    NegOfNegResidue(r3, g.order);
    UndoTimes(g, r1, r3, a);
  }

  /** Two signatures that are the same point and the same field elements. */
  ghost predicate SameSignature<P>(g: Group<P>, a: Signature<P>, b: Signature<P>)
    requires g.order > 0
  {
    a.a == b.a && a.e % g.order == b.e % g.order && a.s % g.order == b.s % g.order
  }

  /** The signature that unblinding puts together from the prover's witnesses. */
  function Unblinded<P>(g: Group<P>, sig: Signature<P>, r1: int, r2: int, r3: int): Signature<P>
    requires g.order > 0
  {
    Signature(Times(g, -(-r3 % g.order), Times(g, r1, sig.a)), -(-sig.e % g.order),
              (sig.s - r2 * r3) % g.order % g.order - -r3 % g.order * (r2 % g.order))
  }

  lemma UnblindedIsSame<P(!new)>(g: Group<P>, sig: Signature<P>, r1: int, r2: int, r3: int)
    requires IsGroup(g) && (r1 * r3) % g.order == 1
    ensures SameSignature(g, Unblinded(g, sig, r1, r2, r3), sig)
  {
    NegOfNegResidue(sig.e, g.order);
    BlindingCancels(sig.s, r2, r3, g.order);
    ARecovered(g, sig.a, r1, r3);
  }

  lemma LastWitnesses<P(!new)>(g: Group<P>, u: Prover<P>) returns (hidden: seq<int>, r3: int)
    requires Honest(g, u)
    ensures (u.coins.r1 * r3) % g.order == 1
    ensures Commitments(g, u).witnesses == hidden + [-r3, (u.sig.s - u.coins.r2 * r3) % g.order]
  {
    hidden, r3 := Keep(u.messages, u.revealed.Keys, false), Inverse(u.coins.r1, g.order);
  }

  lemma LastRecovered<P(!new)>(g: Group<P>, u: Prover<P>, f: ForkCase<P>, hidden: seq<int>, rho: int, sigma: int)
    requires IsGroup(g) && Honest(g, u) && AnswersBoth(g, u, f) && Fork(g, f)
    requires Commitments(g, u).witnesses == hidden + [rho, sigma]
    ensures Rho(g, f) == rho % g.order && Sigma(g, f) == sigma % g.order
  {
    SecondRecovered(g, u, f, |hidden|);
    SecondRecovered(g, u, f, |hidden| + 1);
  }

  lemma FirstRecovered<P(!new)>(g: Group<P>, u: Prover<P>, f: ForkCase<P>)
    requires IsGroup(g) && Honest(g, u) && AnswersBoth(g, u, f)
    ensures ExtractScalar(f.p.first.response1, f.q.first.response1, f.c, f.c', g.order) == -u.sig.e % g.order
    ensures ExtractScalar(f.p.first.response2, f.q.first.response2, f.c, f.c', g.order) == u.coins.r2 % g.order
    ensures f.p.aPrime == Times(g, u.coins.r1, u.sig.a)
  {
    var pok := Commitments(g, u);
    ExtractHonest(pok.blinding1, pok.witness1, f.c, f.c', g.order);
    ExtractHonest(pok.blinding2, pok.witness2, f.c, f.c', g.order);
  }

  lemma ExtractedIsSame<P(!new)>(g: Group<P>, f: ForkCase<P>, sig: Signature<P>, r1: int, r2: int, r3: int)
    requires IsGroup(g) && Fork(g, f) && (r1 * r3) % g.order == 1 && f.p.aPrime == Times(g, r1, sig.a)
    requires ExtractScalar(f.p.first.response1, f.q.first.response1, f.c, f.c', g.order) == -sig.e % g.order
    requires ExtractScalar(f.p.first.response2, f.q.first.response2, f.c, f.c', g.order) == r2 % g.order
    requires Rho(g, f) == -r3 % g.order && Sigma(g, f) == (sig.s - r2 * r3) % g.order % g.order
    ensures SameSignature(g, ExtractedSignature(g, f), sig)
  {
    UnblindedIsSame(g, sig, r1, r2, r3);
  }

  /** And the extracted signature is the one the prover holds. */
  lemma SignatureRecovered<P(!new)>(g: Group<P>, u: Prover<P>, f: ForkCase<P>)
    requires IsGroup(g) && Honest(g, u) && AnswersBoth(g, u, f) && Fork(g, f)
    ensures SameSignature(g, ExtractedSignature(g, f), u.sig)
  {
    var hidden, r3 := LastWitnesses(g, u);
    LastRecovered(g, u, f, hidden, -r3, (u.sig.s - u.coins.r2 * r3) % g.order);
    FirstRecovered(g, u, f);
    ExtractedIsSame(g, f, u.sig, u.coins.r1, u.coins.r2, r3);
  }

  // ---------------------------------------------------------------- what the answers do not give away

  lemma BlindingFor(z: int, w: int, c: int, r: nat)
    requires 0 <= z < r
    ensures Response(z - w * c, w, c, r) == z
  {
    assert z - w * c + w * c == z;
    SmallResidue(z, r);
  }

  /** The blindings under which witnesses are answered by given responses. */
  function BlindingsFor(zs: seq<int>, ws: seq<int>, c: int): (b: seq<int>)
    requires |zs| == |ws|
    ensures |b| == |zs|
  {
    seq(|zs|, i requires 0 <= i < |zs| => zs[i] - ws[i] * c)
  }

  lemma BlindingsAnswer(zs: seq<int>, ws: seq<int>, c: int, r: nat)
    requires |zs| == |ws| && r > 0 && forall i :: 0 <= i < |zs| ==> 0 <= zs[i] < r
    ensures Responses(BlindingsFor(zs, ws, c), ws, c, r) == zs
  {
    forall i | 0 <= i < |zs| ensures Responses(BlindingsFor(zs, ws, c), ws, c, r)[i] == zs[i] {
      BlindingFor(zs[i], ws[i], c, r);
    }
  }

  /** The coins of a proof with its blindings exchanged and its randomisation r1, r2 kept. */
  ghost function Reblinded(coins: Coins, revealed: set<nat>, b1: int, b2: int, bs: seq<int>): (k: Coins)
    requires |bs| == KeepCount(|coins.message|, revealed, false) + 2
    ensures k.r1 == coins.r1 && k.r2 == coins.r2 && k.first1 == b1 && k.first2 == b2
    ensures |k.message| == |coins.message|
  {
    var n := |bs| - 2;
    Coins(coins.r1, coins.r2, b1, b2, Assemble(coins.message, revealed, bs[..n]), bs[n], bs[n + 1])
  }

  lemma ReblindedCoins(coins: Coins, revealed: set<nat>, b1: int, b2: int, bs: seq<int>)
    requires |bs| == KeepCount(|coins.message|, revealed, false) + 2
    ensures
      var k := Reblinded(coins, revealed, b1, b2, bs);
      Keep(k.message, revealed, false) + [k.forD, k.forH0] == bs
  {
    AssembleHidden(coins.message, revealed, bs[..|bs| - 2]);
    assert bs == bs[..|bs| - 2] + [bs[|bs| - 2], bs[|bs| - 1]];
  }

  lemma CommitmentsOf<P(!new)>(g: Group<P>, u: Prover<P>)
    requires Honest(g, u)
    ensures
      var k := Commitments(g, u);
      && k.blinding1 == u.coins.first1 && k.blinding2 == u.coins.first2
      && k.blindings == Keep(u.coins.message, u.revealed.Keys, false) + [u.coins.forD, u.coins.forH0]
  {
  }

  lemma CommitmentsKept<P(!new)>(g: Group<P>, u: Prover<P>, coins: Coins)
    requires Honest(g, u) && Honest(g, u.(coins := coins)) && coins.r1 == u.coins.r1 && coins.r2 == u.coins.r2
    ensures
      var k, l := Commitments(g, u), Commitments(g, u.(coins := coins));
      && k.witness1 == l.witness1 && k.witness2 == l.witness2 && k.witnesses == l.witnesses
      && k.aPrime == l.aPrime && k.aBar == l.aBar && k.d == l.d
  {
  }

  lemma ChosenAnswer<P(!new)>(g: Group<P>, pok: BbsProtocol<P>, c: int, z1: int, z2: int, zs: seq<int>)
    requires 0 <= z1 < g.order && 0 <= z2 < g.order && |zs| == |pok.witnesses|
    requires forall i :: 0 <= i < |zs| ==> 0 <= zs[i] < g.order
    requires pok.blinding1 == z1 - pok.witness1 * c && pok.blinding2 == z2 - pok.witness2 * c
    requires pok.blindings == BlindingsFor(zs, pok.witnesses, c)
    ensures
      var proof := FinishProof(g, pok, c);
      proof.first.response1 == z1 && proof.first.response2 == z2 && proof.second == Some(zs)
  {
    BlindingFor(z1, pok.witness1, c, g.order);
    BlindingFor(z2, pok.witness2, c, g.order);
    BlindingsAnswer(zs, pok.witnesses, c, g.order);
  }

  /** Whatever the credential and its randomisation, every combination of responses is the answer to every challenge
      for some choice of blindings, all else in the proof staying as it is: the responses say nothing about the
      witnesses. */
  lemma EveryAnswerPossible<P(!new)>(g: Group<P>, u: Prover<P>, challenge: int, z1: int, z2: int, zs: seq<int>)
    returns (u': Prover<P>)
    requires Honest(g, u) && 0 <= z1 < g.order && 0 <= z2 < g.order
    requires |zs| == KeepCount(|u.messages|, u.revealed.Keys, false) + 2
    requires forall i :: 0 <= i < |zs| ==> 0 <= zs[i] < g.order
    ensures Honest(g, u') && u' == u.(coins := u'.coins) && u'.coins.r1 == u.coins.r1 && u'.coins.r2 == u.coins.r2
    ensures
      var proof, before := FinishProof(g, Commitments(g, u'), challenge), Commitments(g, u);
      && proof.first.response1 == z1 && proof.first.response2 == z2 && proof.second == Some(zs)
      && proof.aPrime == before.aPrime && proof.aBar == before.aBar && proof.d == before.d
  {
    var pok := Commitments(g, u);
    var b1, b2 := z1 - pok.witness1 * challenge, z2 - pok.witness2 * challenge;
    var bs := BlindingsFor(zs, pok.witnesses, challenge);
    u' := u.(coins := Reblinded(u.coins, u.revealed.Keys, b1, b2, bs));
    ReblindedCoins(u.coins, u.revealed.Keys, b1, b2, bs);
    CommitmentsOf(g, u');
    CommitmentsKept(g, u, u'.coins);
    ChosenAnswer(g, Commitments(g, u'), challenge, z1, z2, zs);
  }
}
