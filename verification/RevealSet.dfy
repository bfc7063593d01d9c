/** Reveal sets: the prover's list of revealed claims and the map both verifiers rebuild from it. */
module RevealSet {
  import opened Wrappers
  import opened Bytes
  import opened Revealed
  import opened BbsPlus
  import opened Crypto

  /** The claims with their indices. */
  function Enumerate(claims: seq<bytes>): (es: seq<Entry>)
    requires |claims| <= MAX_BBS_MESSAGES
    ensures |es| == |claims|
  {
    seq(|claims|, i requires 0 <= i < |claims| => Entry(i, claims[i]))
  }

  /** The revealed claims in index order, as a prover emits them. */
  function RevealedClaims(claims: seq<bytes>, shown: set<nat>): seq<Entry>
    requires |claims| <= MAX_BBS_MESSAGES
  {
    Keep(Enumerate(claims), shown, true)
  }

  /** The revealed scalars by index, as a prover hashes them. */
  function RevealedMessages(messages: seq<int>, shown: set<nat>): (m: map<nat, int>)
    ensures m.Keys == set i | i in shown && i < |messages|
  {
    map i | i in shown && i < |messages| :: messages[i]
  }

  lemma RevealedKeys(messages: seq<int>, revealSet: set<nat>)
    requires forall i :: i in revealSet ==> i < |messages|
    ensures RevealedMessages(messages, revealSet).Keys == revealSet
  {
  }

  ghost predicate Increasing(es: seq<Entry>) {
    forall i, j :: 0 <= i < j < |es| ==> es[i].index < es[j].index
  }

  ghost predicate Distinct(es: seq<Entry>) {
    forall i, j :: 0 <= i < j < |es| ==> es[i].index != es[j].index
  }

  ghost predicate Within(es: seq<Entry>, lo: nat, count: nat) {
    forall i :: 0 <= i < |es| ==> lo <= es[i].index < count
  }

  /** What a list of entries is: exactly the claims at the indices of `shown` below `n`, in increasing order. */
  ghost predicate Lists(es: seq<Entry>, claims: seq<bytes>, shown: set<nat>, n: nat)
    requires n <= |claims|
  {
    && Increasing(es)
    && (forall i :: 0 <= i < |es| ==> es[i].index in shown && es[i].index < n && es[i].value == claims[es[i].index])
    && (forall k: nat :: k in shown && k < n ==> exists i :: 0 <= i < |es| && es[i].index == k)
  }

  lemma ListsNext(es: seq<Entry>, claims: seq<bytes>, shown: set<nat>, n: nat)
    requires n < |claims| <= MAX_BBS_MESSAGES && Lists(es, claims, shown, n)
    ensures Lists(if n in shown then es + [Entry(n, claims[n])] else es, claims, shown, n + 1)
  {
    var fs := if n in shown then es + [Entry(n, claims[n])] else es;
    forall k: nat | k in shown && k < n + 1
      ensures exists i :: 0 <= i < |fs| && fs[i].index == k
    {
      if k < n {
        var i :| 0 <= i < |es| && es[i].index == k;
        assert fs[i].index == k;
      } else {
        assert fs[|es|].index == k;
      }
    }
  }

  lemma KeepNext(claims: seq<bytes>, shown: set<nat>, n: nat)
    requires n < |claims| <= MAX_BBS_MESSAGES
    ensures
      var es := Keep(Enumerate(claims)[..n], shown, true);
      Keep(Enumerate(claims)[..n + 1], shown, true) == if n in shown then es + [Entry(n, claims[n])] else es
  {
    var xs := Enumerate(claims)[..n];
    KeepAppend(xs, Entry(n, claims[n]), shown, true);
    assert Enumerate(claims)[..n + 1] == xs + [Entry(n, claims[n])];
  }

  lemma {:induction false} KeepLists(claims: seq<bytes>, shown: set<nat>, n: nat)
    requires n <= |claims| <= MAX_BBS_MESSAGES
    ensures Lists(Keep(Enumerate(claims)[..n], shown, true), claims, shown, n)
  {
    if n > 0 {
      KeepLists(claims, shown, n - 1);
      ListsNext(Keep(Enumerate(claims)[..n - 1], shown, true), claims, shown, n - 1);
      KeepNext(claims, shown, n - 1);
    }
  }

  /** For any reveal list, in any order and with repeats, the emitted list is exactly the reveal set in
      increasing order with the right claims. */
  lemma RevealedClaimsExact(claims: seq<bytes>, shown: set<nat>)
    requires |claims| <= MAX_BBS_MESSAGES
    ensures Lists(RevealedClaims(claims, shown), claims, shown, |claims|)
  {
    KeepLists(claims, shown, |claims|);
    assert Enumerate(claims)[..|claims|] == Enumerate(claims);
  }

  /** Splitting a list by a set of indices loses nothing and repeats nothing: every element is kept on exactly
      one of the two sides. */
  lemma {:induction false} KeepPartitions<T>(xs: seq<T>, s: set<nat>)
    ensures multiset(Keep(xs, s, true)) + multiset(Keep(xs, s, false)) == multiset(xs)
    decreases |xs|
  {
    if xs != [] {
      var n := |xs| - 1;
      KeepPartitions(xs[..n], s);
      assert xs == xs[..n] + [xs[n]];
    }
  }

  lemma {:induction false} KeepEnumerated(claims: seq<bytes>, shown: set<nat>, want: bool, n: nat)
    requires n <= |claims| <= MAX_BBS_MESSAGES
    ensures forall i: nat :: i < n ==>
              (Entry(i, claims[i]) in Keep(Enumerate(claims)[..n], shown, want) <==> (i in shown) == want)
    ensures forall e :: e in Keep(Enumerate(claims)[..n], shown, want) ==> e.index < n
  {
    if n > 0 {
      var xs, e := Enumerate(claims)[..n - 1], Entry(n - 1, claims[n - 1]);
      KeepEnumerated(claims, shown, want, n - 1);
      assert Enumerate(claims)[..n] == xs + [e];
      KeepAppend(xs, e, shown, want);
    }
  }

  /** Revealed and hidden claims, with their indices, partition the credential's claims: together they are all
      of them, and the claim at an index is on the revealed side or the hidden side as the reveal set says. */
  lemma ClaimsPartition(claims: seq<bytes>, shown: set<nat>)
    requires |claims| <= MAX_BBS_MESSAGES
    ensures
      var revealed, hidden := RevealedClaims(claims, shown), Keep(Enumerate(claims), shown, false);
      && multiset(revealed) + multiset(hidden) == multiset(Enumerate(claims))
      && forall i: nat :: i < |claims| ==>
           (Entry(i, claims[i]) in revealed <==> i in shown) && (Entry(i, claims[i]) in hidden <==> i !in shown)
  {
    assert Enumerate(claims)[..|claims|] == Enumerate(claims);
    KeepPartitions(Enumerate(claims), shown);
    KeepEnumerated(claims, shown, true, |claims|);
    KeepEnumerated(claims, shown, false, |claims|);
  }

  lemma {:induction false} CountsPartition(n: nat, s: set<nat>)
    ensures KeepCount(n, s, true) + KeepCount(n, s, false) == n
  {
    if n > 0 {
      CountsPartition(n - 1, s);
    }
  }

  /** The emitted list satisfies the decoder's index rule exactly when the claims are short enough to frame. */
  lemma EmittedIsDisciplined(claims: seq<bytes>, shown: set<nat>, rule: IndexRule)
    requires 0 < |claims| <= MAX_BBS_MESSAGES
    requires rule == Below(|claims|) || (rule == BelowHidingFirst(|claims|) && 0 !in shown)
    ensures Disciplined(RevealedClaims(claims, shown), rule)
       <==> forall i: nat :: i in shown && i < |claims| ==> |claims[i]| < 0x1_0000_0000
  {
    RevealedClaimsExact(claims, shown);
    var es := RevealedClaims(claims, shown);
    if Disciplined(es, rule) {
      forall i: nat | i in shown && i < |claims|
        ensures |claims[i]| < 0x1_0000_0000
      {
        var k :| 0 <= k < |es| && es[k].index == i;
      }
    }
  }

  // ---------------------------------------------------------------- the verifiers' loop

  /** Both verifiers rebuild the map entry by entry, refusing indices outside [lo, count) and repeats. */
  function Collect<P>(lib: Library<P>, es: seq<Entry>, lo: nat, count: nat, acc: map<nat, int>): Result<map<nat, int>>
    requires lib.group.order > 0
  {
    if es == [] then Ok(acc)
    else
      var i := es[0].index;
      if i < lo || i >= count then Err(InvalidInput("revealed index invalid"))
      else if i in acc then Err(InvalidInput("duplicate revealed index"))
      else Collect(lib, es[1..], lo, count, acc[i := ClaimToFr(lib, es[0].value)])
  }

  /** The map a list denotes. */
  ghost predicate Denotes<P>(lib: Library<P>, es: seq<Entry>, m: map<nat, int>)
    requires lib.group.order > 0
  {
    && (forall i :: 0 <= i < |es| ==> es[i].index in m && m[es[i].index] == ClaimToFr(lib, es[i].value))
    && (forall k :: k in m ==> exists i :: 0 <= i < |es| && es[i].index == k)
  }

  lemma DenotesUnique<P>(lib: Library<P>, es: seq<Entry>, m: map<nat, int>, n: map<nat, int>)
    requires lib.group.order > 0 && Denotes(lib, es, m) && Denotes(lib, es, n)
    ensures m == n
  {
    forall k | k in m ensures k in n && m[k] == n[k] {
      var i :| 0 <= i < |es| && es[i].index == k;
    }
    forall k | k in n ensures k in m {
      var i :| 0 <= i < |es| && es[i].index == k;
    }
  }

  lemma DenotesNext<P>(lib: Library<P>, es: seq<Entry>, m: map<nat, int>, e: Entry)
    requires lib.group.order > 0 && Denotes(lib, es, m) && e.index !in m
    ensures Denotes(lib, es + [e], m[e.index := ClaimToFr(lib, e.value)])
  {
    var n, fs := m[e.index := ClaimToFr(lib, e.value)], es + [e];
    forall k | k in n ensures exists i :: 0 <= i < |fs| && fs[i].index == k {
      if k in m {
        var i :| 0 <= i < |es| && es[i].index == k;
        assert fs[i].index == k;
      } else {
        assert fs[|es|].index == k;
      }
    }
  }

  lemma FreshIndex<P>(lib: Library<P>, es: seq<Entry>, k: nat, acc: map<nat, int>)
    requires lib.group.order > 0 && k < |es| && Distinct(es) && Denotes(lib, es[..k], acc)
    ensures es[k].index !in acc
  {
  }

  /** On distinct indices in range the verifier's checks never fail, and the map it rebuilds is the one the list
      denotes. */
  lemma {:induction false} CollectSucceeds<P>(lib: Library<P>, es: seq<Entry>, k: nat, lo: nat, count: nat,
                                              acc: map<nat, int>)
    requires lib.group.order > 0 && k <= |es| && Denotes(lib, es[..k], acc)
    requires Distinct(es) && Within(es, lo, count)
    ensures Collect(lib, es[k..], lo, count, acc).Ok?
    ensures Denotes(lib, es, Collect(lib, es[k..], lo, count, acc).value)
    decreases |es| - k
  {
    if k == |es| {
      assert es[..k] == es;
    } else {
      FreshIndex(lib, es, k, acc);
      DenotesNext(lib, es[..k], acc, es[k]);
      assert es[..k + 1] == es[..k] + [es[k]] && es[k..][1..] == es[k + 1..];
      CollectSucceeds(lib, es, k + 1, lo, count, acc[es[k].index := ClaimToFr(lib, es[k].value)]);
    }
  }

  /** The map does not depend on the random oracle. */
  lemma {:induction false} CollectIgnoresOracle<P>(lib: Library<P>, lib': Library<P>, es: seq<Entry>, lo: nat,
                                                   count: nat, acc: map<nat, int>)
    requires lib.group.order > 0 && lib' == lib.(randomOracle := lib'.randomOracle)
    ensures Collect(lib', es, lo, count, acc) == Collect(lib, es, lo, count, acc)
    decreases |es|
  {
    if es != [] {
      CollectIgnoresOracle(lib, lib', es[1..], lo, count, acc[es[0].index as nat := ClaimToFr(lib, es[0].value)]);
    }
  }

  /** Whatever the verifier accepts stays inside its bounds. */
  lemma {:induction false} CollectStaysWithin<P>(lib: Library<P>, es: seq<Entry>, lo: nat, count: nat,
                                                 acc: map<nat, int>)
    requires lib.group.order > 0 && Collect(lib, es, lo, count, acc).Ok?
    requires forall i :: i in acc ==> lo <= i < count
    ensures forall i :: i in Collect(lib, es, lo, count, acc).value ==> lo <= i < count
  {
    if es != [] {
      CollectStaysWithin(lib, es[1..], lo, count, acc[es[0].index as nat := ClaimToFr(lib, es[0].value)]);
    }
  }

  lemma CollectHides<P>(lib: Library<P>, es: seq<Entry>, lo: nat, count: nat)
    requires lib.group.order > 0 && Collect(lib, es, lo, count, map[]).Ok? && lo > 0
    ensures 0 !in Collect(lib, es, lo, count, map[]).value
  {
    CollectStaysWithin(lib, es, lo, count, map[]);
  }

  lemma CollectWhole<P>(lib: Library<P>, es: seq<Entry>, lo: nat, count: nat)
    requires lib.group.order > 0 && Distinct(es) && Within(es, lo, count)
    ensures Collect(lib, es, lo, count, map[]).Ok?
    ensures Denotes(lib, es, Collect(lib, es, lo, count, map[]).value)
  {
    assert es[..0] == [] && es[0..] == es;
    CollectSucceeds(lib, es, 0, lo, count, map[]);
  }

  /** Anything the verifier gets through has distinct indices in range, none of them in the map before. */
  lemma {:induction false} CollectNeeds<P>(lib: Library<P>, es: seq<Entry>, lo: nat, count: nat, acc: map<nat, int>)
    requires lib.group.order > 0 && Collect(lib, es, lo, count, acc).Ok?
    ensures Distinct(es) && Within(es, lo, count) && forall i :: 0 <= i < |es| ==> es[i].index !in acc
    decreases |es|
  {
    if es != [] {
      CollectNeeds(lib, es[1..], lo, count, acc[es[0].index as nat := ClaimToFr(lib, es[0].value)]);
      assert forall i :: 0 < i < |es| ==> es[i] == es[1..][i - 1];
    }
  }

  /** On any list whatever: the verifiers' loop succeeds exactly when the indices are distinct and in range, and
      then the map is the one the list denotes, of field elements. */
  lemma CollectExactly<P>(lib: Library<P>, es: seq<Entry>, lo: nat, count: nat)
    requires lib.group.order > 0
    ensures
      var r := Collect(lib, es, lo, count, map[]);
      && (r.Ok? <==> Distinct(es) && Within(es, lo, count))
      && (r.Ok? ==> Denotes(lib, es, r.value) && forall k :: k in r.value ==> Reduced(r.value[k], lib.group.order))
  {
    if Distinct(es) && Within(es, lo, count) {
      CollectWhole(lib, es, lo, count);
    }
    if Collect(lib, es, lo, count, map[]).Ok? {
      CollectNeeds(lib, es, lo, count, map[]);
      DenotedIsReduced(lib, es, Collect(lib, es, lo, count, map[]).value);
    }
  }

  lemma DenotedIsReduced<P>(lib: Library<P>, es: seq<Entry>, m: map<nat, int>)
    requires lib.group.order > 0 && Denotes(lib, es, m)
    ensures forall k :: k in m ==> Reduced(m[k], lib.group.order)
  {
    forall k | k in m ensures Reduced(m[k], lib.group.order) {
      var i :| 0 <= i < |es| && es[i].index == k;
    }
  }

  function Indices(es: seq<Entry>): set<nat> { set e | e in es :: e.index as nat }

  ghost predicate SameClaim<P>(lib: Library<P>, e: Entry, f: Entry)
    requires lib.group.order > 0
  {
    e.value == f.value || Confusable(lib, e.value, f.value)
  }

  /** Two lists that reveal the same: the same indices, and at each index equal or confusable claims. */
  ghost predicate SameRevealed<P>(lib: Library<P>, es: seq<Entry>, fs: seq<Entry>)
    requires lib.group.order > 0
  {
    && Indices(es) == Indices(fs)
    && forall e, f :: e in es && f in fs && e.index == f.index ==> SameClaim(lib, e, f)
  }

  lemma DenotedKeys<P>(lib: Library<P>, es: seq<Entry>, m: map<nat, int>)
    requires lib.group.order > 0 && Denotes(lib, es, m)
    ensures m.Keys == Indices(es)
    ensures forall e :: e in es ==> e.index in m && m[e.index] == ClaimToFr(lib, e.value)
  {
    forall k | k in m ensures k in Indices(es) {
      var i :| 0 <= i < |es| && es[i].index == k;
      assert es[i] in es;
    }
  }

  /** Lists that denote one map reveal the same claims. */
  lemma OneMapOneClaims<P(!new)>(lib: Library<P>, es: seq<Entry>, fs: seq<Entry>, m: map<nat, int>)
    requires lib.group.order > 0 && HashShapes(lib) && Denotes(lib, es, m) && Denotes(lib, fs, m)
    ensures SameRevealed(lib, es, fs)
  {
    DenotedKeys(lib, es, m);
    DenotedKeys(lib, fs, m);
    forall e, f | e in es && f in fs && e.index == f.index ensures SameClaim(lib, e, f) {
      ClaimsCompare(lib, e.value, f.value);
    }
  }

  /** So a verifier's own checks never fail on a disciplined list. */
  lemma CollectDisciplined<P>(lib: Library<P>, es: seq<Entry>, rule: IndexRule, lo: nat)
    requires lib.group.order > 0 && !rule.AnyIndex? && Disciplined(es, rule)
    requires lo == if rule.BelowHidingFirst? then 1 else 0
    ensures Collect(lib, es, lo, rule.count, map[]).Ok?
  {
    CollectWhole(lib, es, lo, rule.count);
  }

  lemma ListsDenotes<P>(lib: Library<P>, es: seq<Entry>, claims: seq<bytes>, shown: set<nat>)
    requires lib.group.order > 0 && Lists(es, claims, shown, |claims|)
    ensures Denotes(lib, es, RevealedMessages(Messages(lib, claims), shown))
  {
  }

  /** The verifier rebuilds exactly the index-to-scalar map the prover hashed. */
  lemma CollectMatchesProver<P>(lib: Library<P>, claims: seq<bytes>, shown: set<nat>, lo: nat)
    requires lib.group.order > 0 && |claims| <= MAX_BBS_MESSAGES
    requires lo <= 1 && (lo == 1 ==> 0 !in shown)
    ensures Collect(lib, RevealedClaims(claims, shown), lo, |claims|, map[])
         == Ok(RevealedMessages(Messages(lib, claims), shown))
  {
    var es := RevealedClaims(claims, shown);
    var m := RevealedMessages(Messages(lib, claims), shown);
    RevealedClaimsExact(claims, shown);
    ListsDenotes(lib, es, claims, shown);
    CollectWhole(lib, es, lo, |claims|);
    DenotesUnique(lib, es, m, Collect(lib, es, lo, |claims|, map[]).value);
  }

  // ---------------------------------------------------------------- the code

  /** The provers' pass over the reveal set in index order: the map to hash and the list to emit. */
  method BuildRevealed<P>(lib: Library<P>, claims: seq<bytes>, messages: seq<int>, shown: set<nat>)
    returns (scalars: map<nat, int>, revealed: seq<Entry>)
    requires |messages| == |claims| <= MAX_BBS_MESSAGES
    ensures scalars == RevealedMessages(messages, shown)
    ensures revealed == RevealedClaims(claims, shown)
  {
    scalars, revealed := map[], [];
    for i := 0 to |claims|
      invariant scalars == map k | k in shown && k < i :: messages[k]
      invariant revealed == Keep(Enumerate(claims)[..i], shown, true)
    {
      assert Enumerate(claims)[..i + 1][..i] == Enumerate(claims)[..i];
      if i in shown {
        scalars := scalars[i := messages[i]];
        revealed := revealed + [Entry(i, claims[i])];
      }
    }
    assert Enumerate(claims)[..|claims|] == Enumerate(claims);
  }

  /** The verifiers' loop. */
  method CollectLoop<P>(lib: Library<P>, es: seq<Entry>, lo: nat, count: nat) returns (result: Result<map<nat, int>>)
    requires lib.group.order > 0
    ensures result == Collect(lib, es, lo, count, map[])
  {
    var acc: map<nat, int> := map[];
    assert es[0..] == es;
    for k := 0 to |es|
      invariant Collect(lib, es, lo, count, map[]) == Collect(lib, es[k..], lo, count, acc)
    {
      assert es[k..][1..] == es[k + 1..];
      var i := es[k].index;
      if i < lo || i >= count {
        return Err(InvalidInput("revealed index invalid"));
      }
      if i in acc {
        return Err(InvalidInput("duplicate revealed index"));
      }
      acc := acc[i := ClaimToFr(lib, es[k].value)];
    }
    result := Ok(acc);
  }
}
