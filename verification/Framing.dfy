/** Hash preimages and Fiat-Shamir transcripts: how fields are laid out before they are hashed. */
module Framing {
  import opened Bytes

  const BIND_DOMAIN: bytes := Ascii("phi-vote-snark-bind-v1")
  const EXTERNAL_NULLIFIER_DOMAIN: bytes := Ascii("phi-extnull-v1")
  const NULLIFIER_DOMAIN: bytes := Ascii("phi-nullifier-v1")
  const BIND_NONCE_DOMAIN: bytes := Ascii("phi-vote-bind-v2")
  const VOTE_CHALLENGE_DOMAIN: bytes := Ascii("phi-vote-snark-v3")
  const PROOF_CHALLENGE_DOMAIN: bytes := Ascii("phi-bbs-proof-v1")

  /** A length that a u64 prefix holds: every Rust slice has one. */
  ghost predicate Addressable(b: bytes) { |b| <= ISIZE_MAX }

  /** A length that a u32 prefix holds. */
  ghost predicate Short(b: bytes) { |b| < 0x1_0000_0000 }

  // ---------------------------------------------------------------- layouts

  function BindPreimage(chainId: bytes, electionId: bytes, nullifier: bytes, signal: bytes): bytes {
    BIND_DOMAIN + (Frame(8, chainId) + (Frame(8, electionId) + (Frame(8, signal) + (Frame(8, nullifier) + []))))
  }

  function ExternalNullifierPreimage(electionId: bytes): bytes {
    EXTERNAL_NULLIFIER_DOMAIN + (Frame(8, electionId) + [])
  }

  function NullifierPreimage(secret: bytes, topic: bytes): bytes {
    NULLIFIER_DOMAIN + (Frame(8, secret) + (Frame(8, topic) + []))
  }

  function BindNoncePreimage(electionId: bytes, nullifier: bytes, signal: bytes): bytes {
    BIND_NONCE_DOMAIN + (Frame(8, electionId) + (Frame(8, signal) + nullifier))
  }

  function VoteTranscript(messageCount: nat, issuerKey: bytes, bbs: bytes, dl: bytes, binding: bytes): bytes {
    Frame(4, VOTE_CHALLENGE_DOMAIN)
    + (BigEndian(messageCount, 4) + (Frame(4, issuerKey) + (Frame(4, bbs) + (Frame(4, dl) + (Frame(4, binding) + [])))))
  }

  function ProofTranscript(contribution: bytes, nonce: bytes): bytes {
    Frame(4, PROOF_CHALLENGE_DOMAIN) + (Frame(4, contribution) + (Frame(4, nonce) + []))
  }

  // ---------------------------------------------------------------- every layout determines its fields

  lemma Split8(a: bytes, x: bytes, b: bytes, y: bytes)
    requires Addressable(a) && Addressable(b) && Frame(8, a) + x == Frame(8, b) + y
    ensures a == b && x == y
  {
    PowEight();
    FrameSplits(8, a, x, b, y);
  }

  lemma Split4(a: bytes, x: bytes, b: bytes, y: bytes)
    requires Short(a) && Short(b) && Frame(4, a) + x == Frame(4, b) + y
    ensures a == b && x == y
  {
    PowFour();
    FrameSplits(4, a, x, b, y);
  }

  /** A last frame determines its field whatever the length: nothing follows that could be confused with it. */
  lemma SplitLast(a: bytes, b: bytes)
    requires Frame(4, a) + [] == Frame(4, b) + []
    ensures a == b
  {
    assert Frame(4, a) + [] == Frame(4, a) && Frame(4, b) + [] == Frame(4, b);
    PrefixesAgree(BigEndian(|a|, 4), a, BigEndian(|b|, 4), b);
  }

  lemma BindPreimageInjective(c: bytes, e: bytes, n: bytes, s: bytes, c': bytes, e': bytes, n': bytes, s': bytes)
    requires Addressable(c) && Addressable(e) && Addressable(n) && Addressable(s)
    requires Addressable(c') && Addressable(e') && Addressable(n') && Addressable(s')
    requires BindPreimage(c, e, n, s) == BindPreimage(c', e', n', s')
    ensures c == c' && e == e' && n == n' && s == s'
  {
    var x3, y3 := Frame(8, n) + [], Frame(8, n') + [];
    var x2, y2 := Frame(8, s) + x3, Frame(8, s') + y3;
    var x1, y1 := Frame(8, e) + x2, Frame(8, e') + y2;
    PrefixesAgree(BIND_DOMAIN, Frame(8, c) + x1, BIND_DOMAIN, Frame(8, c') + y1);
    Split8(c, x1, c', y1);
    Split8(e, x2, e', y2);
    Split8(s, x3, s', y3);
    Split8(n, [], n', []);
  }

  lemma ExternalNullifierPreimageInjective(e: bytes, e': bytes)
    requires Addressable(e) && Addressable(e')
    requires ExternalNullifierPreimage(e) == ExternalNullifierPreimage(e')
    ensures e == e'
  {
    PrefixesAgree(EXTERNAL_NULLIFIER_DOMAIN, Frame(8, e) + [], EXTERNAL_NULLIFIER_DOMAIN, Frame(8, e') + []);
    Split8(e, [], e', []);
  }

  lemma NullifierPreimageInjective(s: bytes, t: bytes, s': bytes, t': bytes)
    requires Addressable(s) && Addressable(t) && Addressable(s') && Addressable(t')
    requires NullifierPreimage(s, t) == NullifierPreimage(s', t')
    ensures s == s' && t == t'
  {
    var x, y := Frame(8, t) + [], Frame(8, t') + [];
    PrefixesAgree(NULLIFIER_DOMAIN, Frame(8, s) + x, NULLIFIER_DOMAIN, Frame(8, s') + y);
    Split8(s, x, s', y);
    Split8(t, [], t', []);
  }

  /** The nullifier closes the preimage without a length of its own, and is still determined. */
  lemma BindNoncePreimageInjective(e: bytes, n: bytes, s: bytes, e': bytes, n': bytes, s': bytes)
    requires Addressable(e) && Addressable(s) && Addressable(e') && Addressable(s')
    requires BindNoncePreimage(e, n, s) == BindNoncePreimage(e', n', s')
    ensures e == e' && n == n' && s == s'
  {
    PrefixesAgree(BIND_NONCE_DOMAIN, Frame(8, e) + (Frame(8, s) + n), BIND_NONCE_DOMAIN,
                  Frame(8, e') + (Frame(8, s') + n'));
    Split8(e, Frame(8, s) + n, e', Frame(8, s') + n');
    Split8(s, n, s', n');
  }

  lemma VoteTranscriptInjective(m: u32, k: bytes, b: bytes, d: bytes, t: bytes, m': u32, k': bytes, b': bytes,
                                d': bytes, t': bytes)
    requires Short(k) && Short(b) && Short(d)
    requires Short(k') && Short(b') && Short(d')
    requires VoteTranscript(m, k, b, d, t) == VoteTranscript(m', k', b', d', t')
    ensures m == m' && k == k' && b == b' && d == d' && t == t'
  {
    var x4, y4 := Frame(4, t) + [], Frame(4, t') + [];
    var x3, y3 := Frame(4, d) + x4, Frame(4, d') + y4;
    var x2, y2 := Frame(4, b) + x3, Frame(4, b') + y3;
    var x1, y1 := Frame(4, k) + x2, Frame(4, k') + y2;
    PrefixesAgree(Frame(4, VOTE_CHALLENGE_DOMAIN), BigEndian(m, 4) + x1, Frame(4, VOTE_CHALLENGE_DOMAIN),
                  BigEndian(m', 4) + y1);
    PrefixesAgree(BigEndian(m, 4), x1, BigEndian(m', 4), y1);
    PowFour();
    BigEndianInjective(m, m', 4);
    Split4(k, x2, k', y2);
    Split4(b, x3, b', y3);
    Split4(d, x4, d', y4);
    SplitLast(t, t');
  }

  lemma ProofTranscriptInjective(c: bytes, n: bytes, c': bytes, n': bytes)
    requires Short(c) && Short(c')
    requires ProofTranscript(c, n) == ProofTranscript(c', n')
    ensures c == c' && n == n'
  {
    var x, y := Frame(4, n) + [], Frame(4, n') + [];
    PrefixesAgree(Frame(4, PROOF_CHALLENGE_DOMAIN), Frame(4, c) + x, Frame(4, PROOF_CHALLENGE_DOMAIN),
                  Frame(4, c') + y);
    Split4(c, x, c', y);
    SplitLast(n, n');
  }

  /** When the two transcripts agree on count and BBS+ contribution, and the last two fields on their lengths, no
      bound on lengths is needed. */
  lemma VoteTranscriptBinds(m: nat, k: bytes, k': bytes, b: bytes, d: bytes, d': bytes, t: bytes, t': bytes)
    requires |d| == |d'| && |t| == |t'| && VoteTranscript(m, k, b, d, t) == VoteTranscript(m, k', b, d', t')
    ensures k == k' && d == d' && t == t'
  {
    var x2, y2 := Frame(4, d) + (Frame(4, t) + []), Frame(4, d') + (Frame(4, t') + []);
    var x, y := Frame(4, b) + x2, Frame(4, b) + y2;
    var z := Frame(4, VOTE_CHALLENGE_DOMAIN);
    PrefixesAgree(z, BigEndian(m, 4) + (Frame(4, k) + x), z, BigEndian(m, 4) + (Frame(4, k') + y));
    PrefixesAgree(BigEndian(m, 4), Frame(4, k) + x, BigEndian(m, 4), Frame(4, k') + y);
    assert |k| == |k'|;
    PrefixesAgree(Frame(4, k), x, Frame(4, k'), y);
    PrefixesAgree(BigEndian(|k|, 4), k, BigEndian(|k'|, 4), k');
    PrefixesAgree(Frame(4, b), x2, Frame(4, b), y2);
    PrefixesAgree(Frame(4, d), Frame(4, t) + [], Frame(4, d'), Frame(4, t') + []);
    PrefixesAgree(BigEndian(|d|, 4), d, BigEndian(|d'|, 4), d');
    SplitLast(t, t');
  }

  lemma SwapPair(x: bytes, y: bytes, x': bytes, y': bytes, rest: bytes)
    requires x + y == x' + y'
    ensures x + (y + rest) == x' + (y' + rest)
  {
    assert x + (y + rest) == (x + y) + rest && x' + (y' + rest) == (x' + y') + rest;
  }

  /** The bound on field lengths is exact for every field but the last: a field too long for its prefix shares
      its transcript with a different one, under suitable contents of the field after it. */
  lemma OverlongContributionCollides(c: bytes) returns (n: bytes, c': bytes, n': bytes)
    requires !Short(c)
    ensures c != c' && ProofTranscript(c, n) == ProofTranscript(c', n')
  {
    PowFour();
    n, c', n' := OverlongFrameCollides(4, c);
    SwapPair(Frame(4, c), Frame(4, n), Frame(4, c'), Frame(4, n'), []);
  }

  /** The same for the issuer key in a vote transcript, whatever the other fields, ... */
  lemma OverlongKeyCollides(m: nat, k: bytes, d: bytes, t: bytes) returns (b: bytes, k': bytes, b': bytes)
    requires !Short(k)
    ensures k != k' && VoteTranscript(m, k, b, d, t) == VoteTranscript(m, k', b', d, t)
  {
    PowFour();
    b, k', b' := OverlongFrameCollides(4, k);
    SwapPair(Frame(4, k), Frame(4, b), Frame(4, k'), Frame(4, b'), Frame(4, d) + (Frame(4, t) + []));
  }

  /** ... for the BBS+ contribution, ... */
  lemma OverlongBbsCollides(m: nat, k: bytes, b: bytes, t: bytes) returns (d: bytes, b': bytes, d': bytes)
    requires !Short(b)
    ensures b != b' && VoteTranscript(m, k, b, d, t) == VoteTranscript(m, k, b', d', t)
  {
    PowFour();
    d, b', d' := OverlongFrameCollides(4, b);
    SwapPair(Frame(4, b), Frame(4, d), Frame(4, b'), Frame(4, d'), Frame(4, t) + []);
  }

  /** ... and for the discrete-log contribution. */
  lemma OverlongDlCollides(m: nat, k: bytes, b: bytes, d: bytes) returns (t: bytes, d': bytes, t': bytes)
    requires !Short(d)
    ensures d != d' && VoteTranscript(m, k, b, d, t) == VoteTranscript(m, k, b, d', t')
  {
    PowFour();
    t, d', t' := OverlongFrameCollides(4, d);
    SwapPair(Frame(4, d), Frame(4, t), Frame(4, d'), Frame(4, t'), []);
  }

  // ---------------------------------------------------------------- no two layouts overlap

  lemma DifferAt(a: bytes, x: bytes, b: bytes, y: bytes, i: nat)
    requires i < |a| && i < |b| && a[i] != b[i]
    ensures a + x != b + y
  {
    assert (a + x)[i] == a[i] && (b + y)[i] == b[i];
  }

  lemma DomainBytes()
    ensures BIND_DOMAIN[4] == 'v' as int && BIND_DOMAIN[9] == 's' as int && |BIND_DOMAIN| == 22
    ensures BIND_NONCE_DOMAIN[4] == 'v' as int && BIND_NONCE_DOMAIN[9] == 'b' as int && |BIND_NONCE_DOMAIN| == 16
    ensures EXTERNAL_NULLIFIER_DOMAIN[4] == 'e' as int && |EXTERNAL_NULLIFIER_DOMAIN| == 14
    ensures NULLIFIER_DOMAIN[4] == 'n' as int && |NULLIFIER_DOMAIN| == 16
  {
    assert "phi-vote-snark-bind-v1"[4] == 'v' && "phi-vote-snark-bind-v1"[9] == 's';
    assert "phi-vote-bind-v2"[4] == 'v' && "phi-vote-bind-v2"[9] == 'b';
    assert "phi-extnull-v1"[4] == 'e' && "phi-nullifier-v1"[4] == 'n';
  }

  /** The four SHA-256 preimages are pairwise different for all inputs whatsoever. */
  lemma PreimagesDisjoint(c: bytes, e: bytes, n: bytes, s: bytes, e1: bytes, s2: bytes, t2: bytes, e3: bytes, n3: bytes,
                          s3: bytes)
    ensures BindPreimage(c, e, n, s) != ExternalNullifierPreimage(e1)
    ensures BindPreimage(c, e, n, s) != NullifierPreimage(s2, t2)
    ensures BindPreimage(c, e, n, s) != BindNoncePreimage(e3, n3, s3)
    ensures ExternalNullifierPreimage(e1) != NullifierPreimage(s2, t2)
    ensures ExternalNullifierPreimage(e1) != BindNoncePreimage(e3, n3, s3)
    ensures NullifierPreimage(s2, t2) != BindNoncePreimage(e3, n3, s3)
  {
    DomainBytes();
    var bind := Frame(8, c) + (Frame(8, e) + (Frame(8, s) + (Frame(8, n) + [])));
    var ext := Frame(8, e1) + [];
    var nul := Frame(8, s2) + (Frame(8, t2) + []);
    var nonce := Frame(8, e3) + (Frame(8, s3) + n3);
    DifferAt(BIND_DOMAIN, bind, EXTERNAL_NULLIFIER_DOMAIN, ext, 4);
    DifferAt(BIND_DOMAIN, bind, NULLIFIER_DOMAIN, nul, 4);
    DifferAt(BIND_DOMAIN, bind, BIND_NONCE_DOMAIN, nonce, 9);
    DifferAt(EXTERNAL_NULLIFIER_DOMAIN, ext, NULLIFIER_DOMAIN, nul, 4);
    DifferAt(EXTERNAL_NULLIFIER_DOMAIN, ext, BIND_NONCE_DOMAIN, nonce, 4);
    DifferAt(NULLIFIER_DOMAIN, nul, BIND_NONCE_DOMAIN, nonce, 4);
  }

  /** No selective-disclosure transcript is ever a vote transcript. */
  lemma TranscriptsDisjoint(c: bytes, n: bytes, m: nat, k: bytes, b: bytes, d: bytes, t: bytes)
    ensures ProofTranscript(c, n) != VoteTranscript(m, k, b, d, t)
  {
    var x := Frame(4, c) + (Frame(4, n) + []);
    var y := BigEndian(m, 4) + (Frame(4, k) + (Frame(4, b) + (Frame(4, d) + (Frame(4, t) + []))));
    assert BigEndian(16, 4)[3] == 16 && BigEndian(17, 4)[3] == 17;
    DifferAt(Frame(4, PROOF_CHALLENGE_DOMAIN), x, Frame(4, VOTE_CHALLENGE_DOMAIN), y, 3);
  }

  // ---------------------------------------------------------------- the code that builds them

  /** A running hash: what has been fed to it so far. */
  class Hasher {
    var input: bytes

    constructor ()
      ensures input == []
    {
      input := [];
    }

    method Update(b: bytes)
      modifies this
      ensures input == old(input) + b
    {
      input := input + b;
    }

    /** A u64 big-endian length, then the field. */
    method UpdateFrame(b: bytes)
      modifies this
      ensures input == old(input) + Frame(8, b)
    {
      Update(BigEndian(|b|, 8));
      Update(b);
    }
  }

  lemma Chain(a: bytes, b: bytes, c: bytes, d: bytes, e: bytes)
    ensures [] + a + b + c + d + e == a + (b + (c + (d + (e + []))))
  {
  }

  method BindContext(sha256: bytes -> bytes, chainId: bytes, electionId: bytes, nullifier: bytes, signal: bytes)
    returns (digest: bytes)
    ensures digest == sha256(BindPreimage(chainId, electionId, nullifier, signal))
  {
    var h := new Hasher();
    h.Update(BIND_DOMAIN);
    h.UpdateFrame(chainId);
    h.UpdateFrame(electionId);
    h.UpdateFrame(signal);
    h.UpdateFrame(nullifier);
    Chain(BIND_DOMAIN, Frame(8, chainId), Frame(8, electionId), Frame(8, signal), Frame(8, nullifier));
    digest := sha256(h.input);
  }

  method ExternalNullifier(sha256: bytes -> bytes, electionId: bytes) returns (digest: bytes)
    ensures digest == sha256(ExternalNullifierPreimage(electionId))
  {
    var h := new Hasher();
    h.Update(EXTERNAL_NULLIFIER_DOMAIN);
    h.UpdateFrame(electionId);
    assert h.input == ExternalNullifierPreimage(electionId);
    digest := sha256(h.input);
  }

  method ComputeNullifier(sha256: bytes -> bytes, secret: bytes, topic: bytes) returns (digest: bytes)
    ensures digest == sha256(NullifierPreimage(secret, topic))
  {
    var h := new Hasher();
    h.Update(NULLIFIER_DOMAIN);
    h.UpdateFrame(secret);
    h.UpdateFrame(topic);
    assert h.input == NullifierPreimage(secret, topic);
    digest := sha256(h.input);
  }

  /** The nullifier of a semaphore vote: the election's external nullifier is the topic. */
  function SemaphoreNullifier(sha256: bytes -> bytes, secret: bytes, electionId: bytes): bytes {
    sha256(NullifierPreimage(secret, sha256(ExternalNullifierPreimage(electionId))))
  }

  method Nullifier(sha256: bytes -> bytes, secret: bytes, electionId: bytes) returns (digest: bytes)
    ensures digest == SemaphoreNullifier(sha256, secret, electionId)
  {
    var tag := ExternalNullifier(sha256, electionId);
    digest := ComputeNullifier(sha256, secret, tag);
  }

  /** One semaphore nullifier belongs to one secret in one election, or one of its two hashes collides. */
  lemma OneNullifierOneVoter(sha256: bytes -> bytes, s: bytes, e: bytes, s': bytes, e': bytes)
    requires Addressable(s) && Addressable(e) && Addressable(s') && Addressable(e')
    requires Addressable(sha256(ExternalNullifierPreimage(e))) && Addressable(sha256(ExternalNullifierPreimage(e')))
    requires SemaphoreNullifier(sha256, s, e) == SemaphoreNullifier(sha256, s', e')
    ensures
      var x, x' := ExternalNullifierPreimage(e), ExternalNullifierPreimage(e');
      || (s == s' && e == e')
      || Collision(sha256, x, x')
      || Collision(sha256, NullifierPreimage(s, sha256(x)), NullifierPreimage(s', sha256(x')))
  {
    var t, t' := sha256(ExternalNullifierPreimage(e)), sha256(ExternalNullifierPreimage(e'));
    if NullifierPreimage(s, t) == NullifierPreimage(s', t') {
      NullifierPreimageInjective(s, t, s', t');
      if ExternalNullifierPreimage(e) == ExternalNullifierPreimage(e') {
        ExternalNullifierPreimageInjective(e, e');
      }
    }
  }

  method BindNonce(sha256: bytes -> bytes, electionId: bytes, nullifier: bytes, signal: bytes) returns (digest: bytes)
    ensures digest == sha256(BindNoncePreimage(electionId, nullifier, signal))
  {
    var h := new Hasher();
    h.Update(BIND_NONCE_DOMAIN);
    h.UpdateFrame(electionId);
    h.UpdateFrame(signal);
    h.Update(nullifier);
    assert h.input == BindNoncePreimage(electionId, nullifier, signal);
    digest := sha256(h.input);
  }
}
