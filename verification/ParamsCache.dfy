/** The memoised signature parameters: a shared map behind a lock that is taken twice per call, with the
    derivation in between and outside it.  Calls of any number of threads are interleaved step by step; a
    thread may panic anywhere, and a panic inside a critical section poisons the lock for good. */
module ParamsCache {

  const MAX_CACHED: nat := 64

  /** Where a call is. */
  datatype Phase<V> =
    | Started(count: nat)
    | Missed(count: nat)                // looked up in vain, or the lock was poisoned
    | Derived(count: nat, params: V)    // derived, not stored yet
    | Returned(count: nat, params: V)
    | Panicked

  datatype State<V> = State(cache: map<nat, V>, poisoned: bool, calls: map<nat, Phase<V>>, derivations: map<nat, nat>)

  datatype Action =
    | Begin(id: nat, count: nat)
    | Lookup(id: nat)
    | Derive(id: nat)
    | Store(id: nat)
    | PanicOutside(id: nat)
    | PanicInLookup(id: nat)
    | PanicInStore(id: nat, stored: bool)

  function Derivations(m: map<nat, nat>, count: nat): nat {
    if count in m then m[count] else 0
  }

  predicate Enabled<V>(s: State<V>, a: Action) {
    match a
    case Begin(id, count) => id !in s.calls
    case Lookup(id) => id in s.calls && s.calls[id].Started? && s.calls[id].count <= MAX_CACHED
    case Derive(id) =>
      id in s.calls && (s.calls[id].Missed? || (s.calls[id].Started? && s.calls[id].count > MAX_CACHED))
    case Store(id) => id in s.calls && s.calls[id].Derived?
    case PanicOutside(id) => id in s.calls && !s.calls[id].Returned?
    case PanicInLookup(id) => id in s.calls && s.calls[id].Started? && s.calls[id].count <= MAX_CACHED && !s.poisoned
    case PanicInStore(id, stored) => id in s.calls && s.calls[id].Derived? && !s.poisoned
  }

  function Apply<V>(derive: nat -> V, s: State<V>, a: Action): State<V>
    requires Enabled(s, a)
  {
    match a
    case Begin(id, count) => s.(calls := s.calls[id := Started(count)])
    case Lookup(id) =>
      var count := s.calls[id].count;
      if !s.poisoned && count in s.cache then s.(calls := s.calls[id := Returned(count, s.cache[count])])
      else s.(calls := s.calls[id := Missed(count)])
    case Derive(id) =>
      var count := s.calls[id].count;
      var params := derive(count);
      s.(calls := s.calls[id := if count > MAX_CACHED then Returned(count, params) else Derived(count, params)],
         derivations := s.derivations[count := Derivations(s.derivations, count) + 1])
    case Store(id) =>
      var Derived(count, params) := s.calls[id];
      s.(calls := s.calls[id := Returned(count, params)],
         cache := if s.poisoned then s.cache else s.cache[count := params])
    case PanicOutside(id) => s.(calls := s.calls[id := Panicked])
    case PanicInLookup(id) => s.(calls := s.calls[id := Panicked], poisoned := true)
    case PanicInStore(id, stored) =>
      var Derived(count, params) := s.calls[id];
      s.(calls := s.calls[id := Panicked], poisoned := true,
         cache := if stored then s.cache[count := params] else s.cache)
  }

  predicate Legal<V>(derive: nat -> V, s: State<V>, actions: seq<Action>)
    decreases |actions|
  {
    actions == [] || (Enabled(s, actions[0]) && Legal(derive, Apply(derive, s, actions[0]), actions[1..]))
  }

  function Run<V>(derive: nat -> V, s: State<V>, actions: seq<Action>): State<V>
    requires Legal(derive, s, actions)
    decreases |actions|
  {
    if actions == [] then s else Run(derive, Apply(derive, s, actions[0]), actions[1..])
  }

  function Initial<V>(): State<V> { State(map[], false, map[], map[]) }

  // ---------------------------------------------------------------- the cache refines derivation

  /** Every cached entry is a fresh derivation under an in-range key, and so is every value a call holds. */
  ghost predicate Faithful<V>(derive: nat -> V, s: State<V>) {
    && (forall c :: c in s.cache ==> c <= MAX_CACHED && s.cache[c] == derive(c))
    && (forall id :: id in s.calls ==> PhaseFaithful(derive, s.calls[id]))
  }

  ghost predicate PhaseFaithful<V>(derive: nat -> V, p: Phase<V>) {
    && (p.Missed? || p.Derived? ==> p.count <= MAX_CACHED)
    && (p.Derived? || p.Returned? ==> p.params == derive(p.count))
  }

  lemma StepFaithful<V>(derive: nat -> V, s: State<V>, a: Action)
    requires Faithful(derive, s) && Enabled(s, a)
    ensures Faithful(derive, Apply(derive, s, a))
  {
    if !a.Begin? {
      assert PhaseFaithful(derive, s.calls[a.id]);
    }
  }

  lemma {:induction false} RunFaithful<V>(derive: nat -> V, s: State<V>, actions: seq<Action>)
    requires Faithful(derive, s) && Legal(derive, s, actions)
    ensures Faithful(derive, Run(derive, s, actions))
    decreases |actions|
  {
    if actions != [] {
      StepFaithful(derive, s, actions[0]);
      RunFaithful(derive, Apply(derive, s, actions[0]), actions[1..]);
    }
  }

  /** In every interleaving, with panics and poisoning anywhere, each call that returns returns a fresh
      derivation for its count, and nothing out of range is ever cached. */
  lemma CacheIsInvisible<V>(derive: nat -> V, actions: seq<Action>)
    requires Legal(derive, Initial(), actions)
    ensures
      var s := Run(derive, Initial(), actions);
      && (forall id :: id in s.calls && s.calls[id].Returned? ==> s.calls[id].params == derive(s.calls[id].count))
      && (forall c :: c in s.cache ==> c <= MAX_CACHED && s.cache[c] == derive(c))
  {
    RunFaithful(derive, Initial(), actions);
    var s := Run(derive, Initial(), actions);
    forall id | id in s.calls && s.calls[id].Returned?
      ensures s.calls[id].params == derive(s.calls[id].count)
    {
      assert PhaseFaithful(derive, s.calls[id]);
    }
  }

  // ---------------------------------------------------------------- what a cached count still costs

  /** The calls that will still derive `count`. */
  ghost function Pending<V>(s: State<V>, count: nat): set<nat> {
    set id | id in s.calls && s.calls[id] == Missed(count)
  }

  /** Derivations of `count` done or still to come from calls that already missed. */
  ghost function Committed<V>(s: State<V>, count: nat): nat {
    Derivations(s.derivations, count) + |Pending(s, count)|
  }

  lemma SubsetSmaller(a: set<nat>, b: set<nat>)
    requires a <= b
    ensures |a| <= |b|
  {
    assert b == a + (b - a);
  }

  /** A step changes the phase of its own call only. */
  lemma StepLocal<V>(derive: nat -> V, s: State<V>, a: Action)
    requires Enabled(s, a)
    ensures Apply(derive, s, a).calls == s.calls[a.id := Apply(derive, s, a).calls[a.id]]
    ensures s.poisoned ==> Apply(derive, s, a).poisoned
    ensures forall c :: c in s.cache ==> c in Apply(derive, s, a).cache
    ensures !a.Derive? ==> Apply(derive, s, a).derivations == s.derivations
  {
  }

  /** A call misses a count only while it is not cached or the lock is poisoned. */
  lemma NewMiss<V>(derive: nat -> V, s: State<V>, a: Action, count: nat)
    requires Enabled(s, a) && Apply(derive, s, a).calls[a.id] == Missed(count)
    requires a.Begin? || s.calls[a.id] != Missed(count)
    ensures s.poisoned || count !in s.cache
  {
  }

  lemma PendingAfter<V>(s: State<V>, s': State<V>, id: nat, count: nat)
    requires id in s'.calls && s'.calls == s.calls[id := s'.calls[id]]
    requires s'.calls[id] == Missed(count) ==> id in s.calls && s.calls[id] == Missed(count)
    ensures Pending(s', count) <= Pending(s, count)
    ensures |Pending(s', count)| <= |Pending(s, count)|
    ensures id in s.calls && s.calls[id] == Missed(count) && s'.calls[id] != Missed(count) ==>
              |Pending(s', count)| + 1 == |Pending(s, count)|
  {
    SubsetSmaller(Pending(s', count), Pending(s, count));
    if id in s.calls && s.calls[id] == Missed(count) && s'.calls[id] != Missed(count) {
      assert Pending(s, count) == Pending(s', count) + {id};
    }
  }

  lemma StepCommitted<V>(derive: nat -> V, s: State<V>, a: Action, count: nat)
    requires Enabled(s, a) && !Apply(derive, s, a).poisoned && count in s.cache && count <= MAX_CACHED
    ensures !s.poisoned && count in Apply(derive, s, a).cache
    ensures Committed(Apply(derive, s, a), count) <= Committed(s, count)
  {
    var s' := Apply(derive, s, a);
    StepLocal(derive, s, a);
    if s'.calls[a.id] == Missed(count) && (a.Begin? || s.calls[a.id] != Missed(count)) {
      NewMiss(derive, s, a, count);
    }
    PendingAfter(s, s', a.id, count);
  }

  /** Once a count is cached and as long as the lock is not poisoned, no call that looks it up later derives
      it: whatever happens, only calls that had missed before can still add derivations. */
  lemma {:induction false} CachedCountIsNotDerivedAgain<V>(derive: nat -> V, s: State<V>, actions: seq<Action>,
                                                           count: nat)
    requires Legal(derive, s, actions) && count in s.cache && count <= MAX_CACHED
    requires !Run(derive, s, actions).poisoned
    ensures Derivations(Run(derive, s, actions).derivations, count) <= Committed(s, count)
  {
    CommittedNeverGrows(derive, s, actions, count);
  }

  lemma {:induction false} PoisonStays<V>(derive: nat -> V, s: State<V>, actions: seq<Action>)
    requires Legal(derive, s, actions) && s.poisoned
    ensures Run(derive, s, actions).poisoned
    decreases |actions|
  {
    if actions != [] {
      PoisonStays(derive, Apply(derive, s, actions[0]), actions[1..]);
    }
  }

  lemma {:induction false} CommittedNeverGrows<V>(derive: nat -> V, s: State<V>, actions: seq<Action>, count: nat)
    requires Legal(derive, s, actions) && count in s.cache && count <= MAX_CACHED
    requires !Run(derive, s, actions).poisoned
    ensures Committed(Run(derive, s, actions), count) <= Committed(s, count)
    decreases |actions|
  {
    if actions != [] {
      var s' := Apply(derive, s, actions[0]);
      if s'.poisoned {
        PoisonStays(derive, s', actions[1..]);
      } else {
        StepCommitted(derive, s, actions[0], count);
        CommittedNeverGrows(derive, s', actions[1..], count);
      }
    }
  }

  // ---------------------------------------------------------------- one call after another

  /** What one whole undisturbed call does to cache and derivation counts. */
  function AfterCall<V>(derive: nat -> V, s: State<V>, id: nat, count: nat): State<V> {
    var hit := count <= MAX_CACHED && !s.poisoned && count in s.cache;
    State(
      if count <= MAX_CACHED && !s.poisoned && !hit then s.cache[count := derive(count)] else s.cache,
      s.poisoned,
      s.calls[id := Returned(count, if hit then s.cache[count] else derive(count))],
      if hit then s.derivations else s.derivations[count := Derivations(s.derivations, count) + 1])
  }

  /** The steps of one whole undisturbed call. */
  function CallSteps<V>(s: State<V>, id: nat, count: nat): seq<Action> {
    if count > MAX_CACHED then [Begin(id, count), Derive(id)]
    else if !s.poisoned && count in s.cache then [Begin(id, count), Lookup(id)]
    else [Begin(id, count), Lookup(id), Derive(id), Store(id)]
  }

  lemma RunTwo<V>(derive: nat -> V, s: State<V>, a: Action, b: Action)
    requires Enabled(s, a) && Enabled(Apply(derive, s, a), b)
    ensures Legal(derive, s, [a, b]) && Run(derive, s, [a, b]) == Apply(derive, Apply(derive, s, a), b)
  {
    var s1 := Apply(derive, s, a);
    assert [a, b][1..] == [b] && [b][1..] == [];
    assert Legal(derive, s1, [b]) && Run(derive, s1, [b]) == Apply(derive, s1, b);
  }

  lemma {:induction false} RunAppend<V>(derive: nat -> V, s: State<V>, xs: seq<Action>, ys: seq<Action>)
    requires Legal(derive, s, xs) && Legal(derive, Run(derive, s, xs), ys)
    ensures Legal(derive, s, xs + ys) && Run(derive, s, xs + ys) == Run(derive, Run(derive, s, xs), ys)
    decreases |xs|
  {
    if xs == [] {
      assert xs + ys == ys;
    } else {
      RunAppend(derive, Apply(derive, s, xs[0]), xs[1..], ys);
      assert (xs + ys)[1..] == xs[1..] + ys;
    }
  }

  lemma WholeMiss<V>(derive: nat -> V, s: State<V>, id: nat, count: nat)
    requires id !in s.calls && count <= MAX_CACHED && (s.poisoned || count !in s.cache)
    ensures Legal(derive, s, CallSteps(s, id, count))
    ensures Run(derive, s, CallSteps(s, id, count)) == AfterCall(derive, s, id, count)
  {
    var first, second := [Begin(id, count), Lookup(id)], [Derive(id), Store(id)];
    RunTwo(derive, s, Begin(id, count), Lookup(id));
    var s2 := Run(derive, s, first);
    assert s2 == s.(calls := s.calls[id := Missed(count)]);
    RunTwo(derive, s2, Derive(id), Store(id));
    RunAppend(derive, s, first, second);
    assert first + second == CallSteps(s, id, count);
  }

  /** From any state a new call can run to completion, and that is `AfterCall`. */
  lemma WholeCall<V>(derive: nat -> V, s: State<V>, id: nat, count: nat)
    requires id !in s.calls
    ensures Legal(derive, s, CallSteps(s, id, count))
    ensures Run(derive, s, CallSteps(s, id, count)) == AfterCall(derive, s, id, count)
  {
    if count > MAX_CACHED {
      RunTwo(derive, s, Begin(id, count), Derive(id));
    } else if !s.poisoned && count in s.cache {
      RunTwo(derive, s, Begin(id, count), Lookup(id));
    } else {
      WholeMiss(derive, s, id, count);
    }
  }

  /** Undisturbed calls made one after another, numbered from `id` on. */
  function Sequence<V>(derive: nat -> V, s: State<V>, id: nat, counts: seq<nat>): State<V>
    decreases |counts|
  {
    if counts == [] then s else Sequence(derive, AfterCall(derive, s, id, counts[0]), id + 1, counts[1..])
  }

  function SequenceSteps<V>(derive: nat -> V, s: State<V>, id: nat, counts: seq<nat>): seq<Action>
    decreases |counts|
  {
    if counts == [] then []
    else CallSteps(s, id, counts[0]) + SequenceSteps(derive, AfterCall(derive, s, id, counts[0]), id + 1, counts[1..])
  }

  /** That is one of the interleavings. */
  lemma {:induction false} SequenceIsARun<V>(derive: nat -> V, s: State<V>, id: nat, counts: seq<nat>)
    requires forall i :: i in s.calls ==> i < id
    ensures Legal(derive, s, SequenceSteps(derive, s, id, counts))
    ensures Run(derive, s, SequenceSteps(derive, s, id, counts)) == Sequence(derive, s, id, counts)
    decreases |counts|
  {
    if counts != [] {
      WholeCall(derive, s, id, counts[0]);
      var s' := AfterCall(derive, s, id, counts[0]);
      SequenceIsARun(derive, s', id + 1, counts[1..]);
      RunAppend(derive, s, CallSteps(s, id, counts[0]), SequenceSteps(derive, s', id + 1, counts[1..]));
    }
  }

  ghost predicate DerivedOnce<V>(s: State<V>) {
    && !s.poisoned
    && forall c: nat :: c <= MAX_CACHED ==> Derivations(s.derivations, c) == if c in s.cache then 1 else 0
  }

  lemma {:induction false} SequenceDerivesOnce<V>(derive: nat -> V, s: State<V>, id: nat, counts: seq<nat>)
    requires DerivedOnce(s)
    ensures DerivedOnce(Sequence(derive, s, id, counts))
    ensures forall c :: c in counts && c <= MAX_CACHED ==> c in Sequence(derive, s, id, counts).cache
    ensures forall c :: c in s.cache ==> c in Sequence(derive, s, id, counts).cache
    decreases |counts|
  {
    if counts != [] {
      SequenceDerivesOnce(derive, AfterCall(derive, s, id, counts[0]), id + 1, counts[1..]);
    }
  }

  /** Undisturbed calls one after another derive each in-range count exactly once, however often it is asked for. */
  lemma EachCountDerivedOnce<V>(derive: nat -> V, counts: seq<nat>, c: nat)
    requires c in counts && c <= MAX_CACHED
    ensures Derivations(Sequence(derive, Initial(), 0, counts).derivations, c) == 1
  {
    SequenceDerivesOnce(derive, Initial(), 0, counts);
  }

  lemma CountCons(counts: seq<nat>, c: nat)
    requires counts != []
    ensures multiset(counts)[c] == multiset(counts[1..])[c] + (if counts[0] == c then 1 else 0)
  {
    assert counts == [counts[0]] + counts[1..];
  }

  /** Counts above the bound are derived every time. */
  lemma {:induction false} OutOfRangeDerivedEveryTime<V>(derive: nat -> V, s: State<V>, id: nat, counts: seq<nat>,
                                                         c: nat)
    requires c > MAX_CACHED
    ensures Derivations(Sequence(derive, s, id, counts).derivations, c)
         == Derivations(s.derivations, c) + multiset(counts)[c]
    decreases |counts|
  {
    if counts != [] {
      OutOfRangeDerivedEveryTime(derive, AfterCall(derive, s, id, counts[0]), id + 1, counts[1..], c);
      CountCons(counts, c);
    }
  }

  /** Once the lock is poisoned the cache is bypassed: every call derives, whatever was cached, and nothing is
      stored. */
  lemma {:induction false} PoisonedDerivesEveryTime<V>(derive: nat -> V, s: State<V>, id: nat, counts: seq<nat>, c: nat)
    requires s.poisoned
    ensures Derivations(Sequence(derive, s, id, counts).derivations, c)
         == Derivations(s.derivations, c) + multiset(counts)[c]
    ensures Sequence(derive, s, id, counts).cache == s.cache
    decreases |counts|
  {
    if counts != [] {
      PoisonedDerivesEveryTime(derive, AfterCall(derive, s, id, counts[0]), id + 1, counts[1..], c);
      CountCons(counts, c);
    }
  }

  // ---------------------------------------------------------------- the code

  /** The static map behind its lock, as one thread sees it. */
  class Cache<V> {
    const derive: nat -> V
    var entries: map<nat, V>
    var poisoned: bool
    var derivations: map<nat, nat>

    constructor (derive: nat -> V)
      ensures this.derive == derive && entries == map[] && !poisoned && derivations == map[]
    {
      this.derive := derive;
      entries, poisoned, derivations := map[], false, map[];
    }

    method DeriveParams(count: nat) returns (params: V)
      modifies this`derivations
      ensures params == derive(count)
      ensures derivations == old(derivations)[count := Derivations(old(derivations), count) + 1]
    {
      derivations := derivations[count := Derivations(derivations, count) + 1];
      params := derive(count);
    }

    /** `params_for` run without interruption is exactly one whole call of the interleaved model. */
    method ParamsFor(count: nat) returns (params: V)
      modifies this
      ensures
        var before := State(old(entries), old(poisoned), map[], old(derivations));
        State(entries, poisoned, map[0 := Returned(count, params)], derivations) == AfterCall(derive, before, 0, count)
      ensures old(Faithful(derive, State(entries, poisoned, map[], derivations))) ==>
        params == derive(count) && Faithful(derive, State(entries, poisoned, map[], derivations))
    {
      if count > MAX_CACHED {
        params := DeriveParams(count);
        return;
      }
      if !poisoned {
        if count in entries {
          return entries[count];
        }
      }
      params := DeriveParams(count);
      if !poisoned {
        entries := entries[count := params];
      }
    }
  }
}
