/** The distinct-nullifier tally and its threshold test. */
module Tally {
  import opened Bytes
  import opened Framing

  /** A recorded vote. */
  datatype VoteRecord = VoteRecord(nullifier: bytes)

  ghost function Nullifiers(votes: seq<VoteRecord>): set<bytes> {
    set v | v in votes :: v.nullifier
  }

  method DistinctNullifiers(votes: seq<VoteRecord>) returns (n: nat)
    ensures n == |Nullifiers(votes)|
  {
    var seen: set<bytes> := {};
    for i := 0 to |votes|
      invariant seen == Nullifiers(votes[..i])
    {
      NullifiersGrow(votes[..i], votes[i]);
      assert votes[..i + 1] == votes[..i] + [votes[i]];
      seen := seen + {votes[i].nullifier};
    }
    assert votes[..|votes|] == votes;
    n := |seen|;
  }

  method VerifyThresholdTally(votes: seq<VoteRecord>, threshold: nat) returns (ok: bool)
    ensures ok <==> |Nullifiers(votes)| >= threshold
  {
    var n := DistinctNullifiers(votes);
    ok := n >= threshold;
  }

  lemma NullifiersAppend(a: seq<VoteRecord>, b: seq<VoteRecord>)
    ensures Nullifiers(a + b) == Nullifiers(a) + Nullifiers(b)
  {
    assert forall v :: v in a + b <==> v in a || v in b;
  }

  lemma NullifiersOfOne(v: VoteRecord)
    ensures Nullifiers([v]) == {v.nullifier}
  {
    assert v in [v];
  }

  /** One more vote adds at most one, and nothing exactly when its nullifier was seen. */
  lemma NullifiersGrow(votes: seq<VoteRecord>, v: VoteRecord)
    ensures Nullifiers(votes + [v]) == Nullifiers(votes) + {v.nullifier}
    ensures |Nullifiers(votes + [v])| == |Nullifiers(votes)| + (if v.nullifier in Nullifiers(votes) then 0 else 1)
  {
    NullifiersAppend(votes, [v]);
    NullifiersOfOne(v);
    if v.nullifier in Nullifiers(votes) {
      assert Nullifiers(votes) + {v.nullifier} == Nullifiers(votes);
    }
  }

  /** The order of votes does not matter. */
  lemma TallyIgnoresOrder(a: seq<VoteRecord>, b: seq<VoteRecord>)
    requires multiset(a) == multiset(b)
    ensures Nullifiers(a) == Nullifiers(b)
  {
    assert forall v :: v in a <==> v in multiset(a);
    assert forall v :: v in b <==> v in multiset(b);
  }

  /** Repeating votes, in any number, does not change the tally. */
  lemma TallyIgnoresRepeats(votes: seq<VoteRecord>, again: seq<VoteRecord>)
    requires forall v :: v in again ==> v.nullifier in Nullifiers(votes)
    ensures Nullifiers(votes + again) == Nullifiers(votes)
  {
    NullifiersAppend(votes, again);
    assert Nullifiers(again) <= Nullifiers(votes);
  }

  // ---------------------------------------------------------------- counting through a function

  ghost predicate InjectiveOn<A(!new), B>(s: set<A>, f: A -> B) {
    forall x, y :: x in s && y in s && f(x) == f(y) ==> x == y
  }

  ghost function Image<A, B>(s: set<A>, f: A -> B): set<B> {
    set x | x in s :: f(x)
  }

  lemma ImageWithout<A(!new), B>(s: set<A>, f: A -> B, x: A)
    requires x in s
    ensures Image(s, f) == Image(s - {x}, f) + {f(x)}
  {
  }

  /** An image is never larger than what it is the image of, and as large exactly when nothing is merged. */
  lemma {:induction false} ImageSize<A(!new), B>(s: set<A>, f: A -> B)
    ensures |Image(s, f)| <= |s|
    ensures |Image(s, f)| == |s| <==> InjectiveOn(s, f)
  {
    if s != {} {
      var x :| x in s;
      var rest := s - {x};
      ImageSize(rest, f);
      ImageWithout(s, f, x);
      assert |s| == |rest| + 1;
      if f(x) in Image(rest, f) {
        assert Image(s, f) == Image(rest, f);
        var y :| y in rest && f(y) == f(x);
      } else {
        assert InjectiveOn(rest, f) ==> InjectiveOn(s, f);
      }
    }
  }

  // ---------------------------------------------------------------- votes of one topic

  ghost function VotesOf(sha256: bytes -> bytes, secrets: seq<bytes>, topic: bytes): (votes: seq<VoteRecord>)
    ensures |votes| == |secrets|
  {
    seq(|secrets|, i requires 0 <= i < |secrets| => VoteRecord(sha256(NullifierPreimage(secrets[i], topic))))
  }

  ghost function Secrets(secrets: seq<bytes>): set<bytes> { set s | s in secrets }

  lemma NullifiersAreImage(sha256: bytes -> bytes, secrets: seq<bytes>, topic: bytes)
    ensures Nullifiers(VotesOf(sha256, secrets, topic))
         == Image(Secrets(secrets), s => sha256(NullifierPreimage(s, topic)))
  {
    var votes, f := VotesOf(sha256, secrets, topic), s => sha256(NullifierPreimage(s, topic));
    forall n | n in Nullifiers(votes) ensures n in Image(Secrets(secrets), f) {
      var v :| v in votes && v.nullifier == n;
      var i :| 0 <= i < |votes| && votes[i] == v;
      assert secrets[i] in Secrets(secrets) && f(secrets[i]) == n;
    }
    forall n | n in Image(Secrets(secrets), f) ensures n in Nullifiers(votes) {
      var s :| s in secrets && f(s) == n;
      var i :| 0 <= i < |secrets| && secrets[i] == s;
      assert votes[i] in votes && votes[i].nullifier == n;
    }
  }

  /** Two voters whose nullifier preimages are different inputs with one hash. */
  ghost predicate SomeCollision(sha256: bytes -> bytes, secrets: seq<bytes>, topic: bytes) {
    exists s, t :: s in secrets && t in secrets
        && Collision(sha256, NullifierPreimage(s, topic), NullifierPreimage(t, topic))
  }

  /** On one topic the tally is at most the number of distinct voter secrets, and equal to it exactly when no
      two of their preimages collide under SHA-256. */
  lemma TallyCountsVoters(sha256: bytes -> bytes, secrets: seq<bytes>, topic: bytes)
    requires Addressable(topic) && forall s :: s in secrets ==> Addressable(s)
    ensures |Nullifiers(VotesOf(sha256, secrets, topic))| <= |Secrets(secrets)|
    ensures |Nullifiers(VotesOf(sha256, secrets, topic))| == |Secrets(secrets)|
       <==> !SomeCollision(sha256, secrets, topic)
  {
    var f := s => sha256(NullifierPreimage(s, topic));
    NullifiersAreImage(sha256, secrets, topic);
    ImageSize(Secrets(secrets), f);
    if SomeCollision(sha256, secrets, topic) {
      var s, t :| s in secrets && t in secrets
          && Collision(sha256, NullifierPreimage(s, topic), NullifierPreimage(t, topic));
      assert s in Secrets(secrets) && t in Secrets(secrets) && f(s) == f(t) && s != t;
    } else {
      forall s, t | s in Secrets(secrets) && t in Secrets(secrets) && f(s) == f(t) ensures s == t {
        if NullifierPreimage(s, topic) == NullifierPreimage(t, topic) {
          NullifierPreimageInjective(s, topic, t, topic);
        }
      }
    }
  }
}
