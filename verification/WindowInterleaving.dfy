/** Overlapping queries of the RIF window. A query loads the cached answer; on a miss it evicts and
    computes under the window's lock, and stores what it computed in the cache. The three are steps of
    their own, and any order of steps of different queries and observations is a run. */
module WindowInterleaving {
  import opened Basics
  import opened RifWindow

  /** A computed answer, with the number of samples ever observed before it. */
  datatype Computation = Computation(cached: CachedAnswer, seen: nat)

  /** A query past its load: it has missed, or it has computed and has yet to store. */
  datatype Call = Missed(q: real, now: int) | Computed(result: CachedAnswer)

  /** What a query was told. */
  datatype Told = Told(q: real, now: int, answer: Answer)

  datatype State = State(samples: seq<Sample>, cache: Option<CachedAnswer>, calls: map<nat, Call>,
                         history: seq<Sample>, computed: seq<Computation>, told: seq<Told>)

  const INIT := State([], None, map[], [], [], [])

  datatype Action =
    | Sampled(rif: Int32, t: int)
    | LoadCache(c: nat, q: real, now: int)
    | Compute(c: nat)
    | StoreCache(c: nat)

  predicate Enabled(s: State, a: Action) {
    match a
    case Sampled(_, _) => true
    case LoadCache(c, _, _) => c !in s.calls
    case Compute(c) => c in s.calls && s.calls[c].Missed?
    case StoreCache(c) => c in s.calls && s.calls[c].Computed?
  }

  ghost predicate Hits(s: State, q: real, now: int) {
    CacheHit(Distribution(s.samples, s.cache), q, now)
  }

  ghost function Apply(s: State, a: Action, maxAge: int): State
    requires Enabled(s, a)
  {
    match a
    case Sampled(rif, t) =>
      s.(samples := s.samples + [Sample(rif, t)], history := s.history + [Sample(rif, t)])
    case LoadCache(c, q, now) =>
      if Hits(s, q, now) then s.(told := s.told + [Told(q, now, s.cache.value.answer)])
      else s.(calls := s.calls[c := Missed(q, now)])
    case Compute(c) =>
      var kept := Evict(s.samples, s.calls[c].now - maxAge);
      var result := CachedAnswer(s.calls[c].q, NaiveQuantile(Rifs(kept), s.calls[c].q), s.calls[c].now);
      s.(samples := kept, calls := s.calls[c := Computed(result)],
         computed := s.computed + [Computation(result, |s.history|)])
    case StoreCache(c) =>
      var r := s.calls[c].result;
      s.(cache := Some(r), calls := s.calls - {c}, told := s.told + [Told(r.q, r.computedAt, r.answer)])
  }

  /** A load is told the cached answer when that is for its q and less than 100 ms old, and computes its
      own otherwise. */
  lemma LoadTells(s: State, c: nat, q: real, now: int, maxAge: int)
    requires c !in s.calls
    ensures Apply(s, LoadCache(c, q, now), maxAge) ==
            if s.cache.Some? && s.cache.value.q == q && now - s.cache.value.computedAt < 100_000_000
            then s.(told := s.told + [Told(q, now, s.cache.value.answer)])
            else s.(calls := s.calls[c := Missed(q, now)])
  {}

  /** What a query has computed, it is told and the cache keeps: a load for the same q right after the
      store, less than 100 ms past the computation, is told the same. */
  lemma StoredIsTold(s: State, c: nat, d: nat, now: int, maxAge: int)
    requires c in s.calls && s.calls[c].Computed? && d !in s.calls
    ensures var r := s.calls[c].result;
            var stored := Apply(s, StoreCache(c), maxAge);
            && Enabled(stored, LoadCache(d, r.q, now))
            && (now - r.computedAt < 100_000_000 ==>
                  Apply(stored, LoadCache(d, r.q, now), maxAge).told ==
                  s.told + [Told(r.q, r.computedAt, r.answer), Told(r.q, now, r.answer)])
  {}

  /** The state after these steps, provided each was possible. */
  ghost function Exec(acts: seq<Action>, maxAge: int): Option<State> {
    if acts == [] then Some(INIT)
    else
      var before, a := Exec(acts[..|acts| - 1], maxAge), acts[|acts| - 1];
      if before.None? || !Enabled(before.value, a) then None else Some(Apply(before.value, a, maxAge))
  }

  // ---------------------------------------------------------------------------------------------
  // Where answers come from

  ghost predicate ComputedAs(computed: seq<Computation>, k: nat, r: CachedAnswer) {
    k < |computed| && computed[k].cached == r
  }

  ghost predicate WasComputed(computed: seq<Computation>, r: CachedAnswer) {
    exists k: nat :: ComputedAs(computed, k, r)
  }

  /** The k-th computation produced what this query was told, recently enough. */
  ghost predicate Explains(computed: seq<Computation>, k: nat, t: Told) {
    && k < |computed|
    && computed[k].cached.q == t.q && computed[k].cached.answer == t.answer
    && t.now - computed[k].cached.computedAt < QUANTILE_CACHE_TTL
  }

  ghost predicate Explained(computed: seq<Computation>, t: Told) {
    exists k: nat :: Explains(computed, k, t)
  }

  /** Whatever is cached or about to be was computed, and so was whatever was told. */
  ghost predicate Traced(s: State) {
    && (s.cache.Some? ==> WasComputed(s.computed, s.cache.value))
    && (forall c :: c in s.calls && s.calls[c].Computed? ==> WasComputed(s.computed, s.calls[c].result))
    && (forall i :: 0 <= i < |s.told| ==> Explained(s.computed, s.told[i]))
  }

  lemma StillComputed(computed: seq<Computation>, x: Computation, r: CachedAnswer)
    requires WasComputed(computed, r)
    ensures WasComputed(computed + [x], r)
  {
    var k: nat :| ComputedAs(computed, k, r);
    assert ComputedAs(computed + [x], k, r);
  }

  lemma StillExplained(computed: seq<Computation>, x: Computation, t: Told)
    requires Explained(computed, t)
    ensures Explained(computed + [x], t)
  {
    var k: nat :| Explains(computed, k, t);
    assert Explains(computed + [x], k, t);
  }

  lemma ComputedExplains(computed: seq<Computation>, r: CachedAnswer, now: int)
    requires WasComputed(computed, r) && now - r.computedAt < QUANTILE_CACHE_TTL
    ensures Explained(computed, Told(r.q, now, r.answer))
  {
    var k: nat :| ComputedAs(computed, k, r);
    assert Explains(computed, k, Told(r.q, now, r.answer));
  }

  lemma TracedCompute(s: State, c: nat, maxAge: int)
    requires Traced(s) && Enabled(s, Compute(c))
    ensures Traced(Apply(s, Compute(c), maxAge))
  {
    hide WasComputed, Explained, Evict, NaiveQuantile;
    var s' := Apply(s, Compute(c), maxAge);
    var x := s'.computed[|s.computed|];
    assert ComputedAs(s'.computed, |s.computed|, x.cached);
    NewlyComputed(s.computed, x);
    if s.cache.Some? {
      StillComputed(s.computed, x, s.cache.value);
    }
    forall d | d in s'.calls && s'.calls[d].Computed? ensures WasComputed(s'.computed, s'.calls[d].result) {
      if d != c { StillComputed(s.computed, x, s.calls[d].result); }
    }
    forall i | 0 <= i < |s'.told| ensures Explained(s'.computed, s'.told[i]) {
      StillExplained(s.computed, x, s.told[i]);
    }
  }

  lemma NewlyComputed(computed: seq<Computation>, x: Computation)
    ensures WasComputed(computed + [x], x.cached)
  {
    assert ComputedAs(computed + [x], |computed|, x.cached);
  }

  lemma TracedStep(s: State, a: Action, maxAge: int)
    requires Traced(s) && Enabled(s, a)
    ensures Traced(Apply(s, a, maxAge))
  {
    hide WasComputed, Explained, Evict, NaiveQuantile;
    match a
    case Sampled(_, _) =>
    case LoadCache(_, q, now) =>
      if Hits(s, q, now) {
        ComputedExplains(s.computed, s.cache.value, now);
      }
    case Compute(c) => TracedCompute(s, c, maxAge);
    case StoreCache(c) =>
      ComputedExplains(s.computed, s.calls[c].result, s.calls[c].result.computedAt);
  }

  lemma {:induction false} RunTraced(acts: seq<Action>, maxAge: int)
    requires Exec(acts, maxAge).Some?
    ensures Traced(Exec(acts, maxAge).value)
  {
    hide Traced, Apply, Enabled;
    if acts == [] {
      assert Traced(INIT) by { NothingTold(); }
    } else {
      RunTraced(acts[..|acts| - 1], maxAge);
      TracedStep(Exec(acts[..|acts| - 1], maxAge).value, acts[|acts| - 1], maxAge);
    }
  }

  lemma NothingTold()
    ensures Traced(INIT)
  {}

  /** In every interleaving, what a query is told was computed for the same q by some query, at an
      instant less than the cache lifetime before its own: however late a result is stored, and
      whatever newer one it overwrites, the age counts from the computation's instant. */
  lemma ToldHasRecentOrigin(acts: seq<Action>, maxAge: int, i: nat) returns (k: nat)
    requires Exec(acts, maxAge).Some? && i < |Exec(acts, maxAge).value.told|
    ensures Explains(Exec(acts, maxAge).value.computed, k, Exec(acts, maxAge).value.told[i])
  {
    RunTraced(acts, maxAge);
    var s := Exec(acts, maxAge).value;
    assert Explained(s.computed, s.told[i]);
    k :| Explains(s.computed, k, s.told[i]);
  }

  // ---------------------------------------------------------------------------------------------
  // What computations answer

  /** Some computation found this sample too old. */
  ghost predicate DroppedBy(computed: seq<Computation>, maxAge: int, x: Sample) {
    exists k :: 0 <= k < |computed| && Stale(x, computed[k].cached.computedAt - maxAge)
  }

  lemma DroppedLonger(computed: seq<Computation>, c: Computation, maxAge: int, x: Sample)
    requires DroppedBy(computed, maxAge, x) || Stale(x, c.cached.computedAt - maxAge)
    ensures DroppedBy(computed + [c], maxAge, x)
  {
    var all := computed + [c];
    if DroppedBy(computed, maxAge, x) {
      var k :| 0 <= k < |computed| && Stale(x, computed[k].cached.computedAt - maxAge);
      assert all[k] == computed[k];
    } else {
      assert Stale(x, all[|computed|].cached.computedAt - maxAge);
    }
  }

  /** The samples held are a suffix of everything observed, and what was dropped had aged out for some
      computation. */
  ghost predicate SuffixHeld(s: State, maxAge: int) {
    && |s.samples| <= |s.history|
    && s.samples == s.history[|s.history| - |s.samples|..]
    && forall i :: 0 <= i < |s.history| - |s.samples| ==> DroppedBy(s.computed, maxAge, s.history[i])
  }

  lemma ComputeHoldsSuffix(s: State, c: nat, maxAge: int)
    requires SuffixHeld(s, maxAge) && Enabled(s, Compute(c))
    ensures SuffixHeld(Apply(s, Compute(c), maxAge), maxAge)
  {
    hide DroppedBy, Evict, NaiveQuantile;
    var s', cutoff := Apply(s, Compute(c), maxAge), s.calls[c].now - maxAge;
    var h, n, n' := s.history, |s.samples|, |s'.samples|;
    EvictDropsLongestStalePrefix(s.samples, cutoff, 0);
    EvictDropsLongestStalePrefix(s.samples, cutoff, n - n');
    assert s'.samples == h[|h| - n'..];
    forall i | 0 <= i < |h| - n' ensures DroppedBy(s'.computed, maxAge, h[i]) {
      if i >= |h| - n {
        assert h[i] == s.samples[i - (|h| - n)];
      }
      DroppedLonger(s.computed, s'.computed[|s.computed|], maxAge, h[i]);
    }
  }

  lemma StepHoldsSuffix(s: State, a: Action, maxAge: int)
    requires SuffixHeld(s, maxAge) && Enabled(s, a)
    ensures SuffixHeld(Apply(s, a, maxAge), maxAge)
  {
    hide DroppedBy;
    if a.Compute? {
      ComputeHoldsSuffix(s, a.c, maxAge);
    } else if a.Sampled? {
      var s' := Apply(s, a, maxAge);
      assert forall i :: 0 <= i < |s.history| - |s.samples| ==> s'.history[i] == s.history[i];
    }
  }

  lemma {:induction false} RunHoldsSuffix(acts: seq<Action>, maxAge: int)
    requires Exec(acts, maxAge).Some?
    ensures SuffixHeld(Exec(acts, maxAge).value, maxAge)
  {
    hide SuffixHeld, Apply, Enabled;
    if acts == [] {
      assert SuffixHeld(INIT, maxAge) by { NothingHeld(maxAge); }
    } else {
      RunHoldsSuffix(acts[..|acts| - 1], maxAge);
      StepHoldsSuffix(Exec(acts[..|acts| - 1], maxAge).value, acts[|acts| - 1], maxAge);
    }
  }

  lemma NothingHeld(maxAge: int)
    ensures SuffixHeld(INIT, maxAge)
  {}

  /** What a computation at this instant needs: no stale sample held stands behind a fresh one, and
      none of those dropped would be fresh again. */
  ghost predicate NothingLost(s: State, maxAge: int, now: int) {
    && StaleFirst(s.samples, now - maxAge)
    && forall i :: 0 <= i < |s.history| - |s.samples| ==> Stale(s.history[i], now - maxAge)
  }

  /** After every interleaving, what a computation keeps is the whole history filtered by age exactly
      under that condition. */
  lemma ComputesFromHistoryIff(acts: seq<Action>, maxAge: int, now: int)
    requires Exec(acts, maxAge).Some?
    ensures var s := Exec(acts, maxAge).value;
            Evict(s.samples, now - maxAge) == Fresh(s.history, now - maxAge) <==> NothingLost(s, maxAge, now)
  {
    hide Evict, Fresh, StaleFirst, Exec;
    RunHoldsSuffix(acts, maxAge);
    var s := Exec(acts, maxAge).value;
    SuffixIsHistoryIff(s.history, |s.history| - |s.samples|, now - maxAge);
  }

  /** Samples are stored and computations are made in the order of their instants. Nothing is asked of
      loads, of stores, or of how observations and computations interleave. */
  ghost predicate InstantsOrdered(s: State) {
    && SamplesOrdered(s.history)
    && forall i, j :: 0 <= i < j < |s.computed| ==>
         s.computed[i].cached.computedAt <= s.computed[j].cached.computedAt
  }

  /** What the reference answers to the same computation. */
  ghost function NaiveFor(history: seq<Sample>, x: Computation, maxAge: int): Answer
    requires x.seen <= |history|
  {
    NaiveQuantile(Rifs(Fresh(history[..x.seen], x.cached.computedAt - maxAge)), x.cached.q)
  }

  ghost predicate AnswersNaively(s: State, maxAge: int) {
    forall k :: 0 <= k < |s.computed| ==>
      s.computed[k].seen <= |s.history| && s.computed[k].cached.answer == NaiveFor(s.history, s.computed[k], maxAge)
  }

  lemma OrderedStepBefore(s: State, a: Action, maxAge: int)
    requires Enabled(s, a) && InstantsOrdered(Apply(s, a, maxAge))
    ensures InstantsOrdered(s)
  {
    var s' := Apply(s, a, maxAge);
    assert forall i :: 0 <= i < |s.history| ==> s'.history[i] == s.history[i];
    assert forall k :: 0 <= k < |s.computed| ==> s'.computed[k] == s.computed[k];
  }

  lemma OrderedNothingLost(s: State, c: nat, maxAge: int)
    requires SuffixHeld(s, maxAge) && Enabled(s, Compute(c)) && InstantsOrdered(Apply(s, Compute(c), maxAge))
    ensures NothingLost(s, maxAge, s.calls[c].now)
  {
    hide Evict, NaiveQuantile;
    var s', now := Apply(s, Compute(c), maxAge), s.calls[c].now;
    OrderedStepBefore(s, Compute(c), maxAge);
    OrderedIsStaleFirst(s.history, |s.history| - |s.samples|, now - maxAge);
    forall i | 0 <= i < |s.history| - |s.samples| ensures Stale(s.history[i], now - maxAge) {
      assert DroppedBy(s.computed, maxAge, s.history[i]);
      var k :| 0 <= k < |s.computed| && Stale(s.history[i], s.computed[k].cached.computedAt - maxAge);
      assert s'.computed[k] == s.computed[k] && s'.computed[|s.computed|].cached.computedAt == now;
    }
  }

  lemma SamePrefix(a: seq<Sample>, x: Sample, n: nat)
    requires n <= |a|
    ensures (a + [x])[..n] == a[..n]
  {}

  lemma NaiveStep(acts: seq<Action>, a: Action, maxAge: int)
    requires Exec(acts, maxAge).Some? && Enabled(Exec(acts, maxAge).value, a)
    requires AnswersNaively(Exec(acts, maxAge).value, maxAge)
    requires InstantsOrdered(Apply(Exec(acts, maxAge).value, a, maxAge))
    ensures AnswersNaively(Apply(Exec(acts, maxAge).value, a, maxAge), maxAge)
  {
    hide Evict, Fresh, NaiveQuantile, Rifs, Exec, InstantsOrdered, NothingLost;
    var s := Exec(acts, maxAge).value;
    var s' := Apply(s, a, maxAge);
    if a.Compute? {
      RunHoldsSuffix(acts, maxAge);
      OrderedNothingLost(s, a.c, maxAge);
      ComputesFromHistoryIff(acts, maxAge, s.calls[a.c].now);
      assert s.history[..|s.history|] == s.history;
    }
    forall k | 0 <= k < |s.computed|
      ensures s'.computed[k].cached.answer == NaiveFor(s'.history, s'.computed[k], maxAge)
    {
      assert s'.computed[k] == s.computed[k];
      if a.Sampled? {
        SamePrefix(s.history, Sample(a.rif, a.t), s.computed[k].seen);
      }
    }
  }

  lemma {:induction false} RunAnswersNaively(acts: seq<Action>, maxAge: int)
    requires Exec(acts, maxAge).Some? && InstantsOrdered(Exec(acts, maxAge).value)
    ensures AnswersNaively(Exec(acts, maxAge).value, maxAge)
  {
    hide Apply, Enabled, InstantsOrdered;
    if acts != [] {
      var init := acts[..|acts| - 1];
      OrderedStepBefore(Exec(init, maxAge).value, acts[|acts| - 1], maxAge);
      RunAnswersNaively(init, maxAge);
      NaiveStep(init, acts[|acts| - 1], maxAge);
    }
  }

  /** The refinement under overlap: in every interleaving in which samples are stored and computations
      made in the order of their instants, what a query is told is the order statistic of the whole
      history filtered by age, as of a computation for the same q less than the cache lifetime before. */
  lemma ToldRefinesHistory(acts: seq<Action>, maxAge: int, i: nat) returns (k: nat)
    requires Exec(acts, maxAge).Some? && InstantsOrdered(Exec(acts, maxAge).value)
    requires i < |Exec(acts, maxAge).value.told|
    ensures var s := Exec(acts, maxAge).value;
            && Explains(s.computed, k, s.told[i])
            && s.computed[k].seen <= |s.history|
            && s.told[i].answer == NaiveFor(s.history, s.computed[k], maxAge)
  {
    k := ToldHasRecentOrigin(acts, maxAge, i);
    RunAnswersNaively(acts, maxAge);
  }

  // ---------------------------------------------------------------------------------------------
  // Two overlapping misses

  /** n samples of the same value at the same instant. */
  function Samplings(n: nat): (acts: seq<Action>)
    ensures |acts| == n && forall i :: 0 <= i < n ==> acts[i] == Sampled(3, 10)
  {
    seq(n, i => Sampled(3, 10))
  }

  /** Two queries for the same q miss; the one that read the later instant computes first, and the other
      no longer sees the samples that are fresh at its own. */
  function Overtaking(n: nat, q: real): seq<Action> {
    Samplings(n) + [LoadCache(0, q, 12), LoadCache(1, q, 20), Compute(1), Compute(0), StoreCache(0)]
  }

  lemma {:induction false} OnlySamplings(n: nat, maxAge: int)
    ensures var h := seq(n, i => Sample(3, 10));
            Exec(Samplings(n), maxAge) == Some(INIT.(samples := h, history := h))
  {
    if n > 0 {
      OnlySamplings(n - 1, maxAge);
      assert Samplings(n)[..n - 1] == Samplings(n - 1);
      assert seq(n, i => Sample(3, 10)) == seq(n - 1, i => Sample(3, 10)) + [Sample(3, 10)];
    } else {
      assert Samplings(0) == [] && seq(0, i => Sample(3, 10)) == [];
    }
  }

  lemma OneMore(acts: seq<Action>, a: Action, s: State, maxAge: int)
    requires Exec(acts, maxAge) == Some(s) && Enabled(s, a)
    ensures Exec(acts + [a], maxAge) == Some(Apply(s, a, maxAge))
  {
    assert (acts + [a])[..|acts|] == acts;
  }

  /** It is told an invalid answer where the filtered history has samples enough. */
  lemma OvertakenMissLosesSamples(q: real)
    ensures Exec(Overtaking(16, q), 5).Some?
    ensures var s := Exec(Overtaking(16, q), 5).value;
            && |s.computed| == 2 && s.computed[1].cached.q == q && s.computed[1].seen == 16 == |s.history|
            && s.told == [Told(q, 12, s.computed[1].cached.answer)]
            && !s.computed[1].cached.answer.valid && NaiveFor(s.history, s.computed[1], 5).valid
  {
    hide Exec;
    var acts, h := Samplings(16), seq(16, i => Sample(3, 10));
    OnlySamplings(16, 5);
    var s0 := INIT.(samples := h, history := h);
    OneMore(acts, LoadCache(0, q, 12), s0, 5);
    var s1 := Apply(s0, LoadCache(0, q, 12), 5);
    OneMore(acts + [LoadCache(0, q, 12)], LoadCache(1, q, 20), s1, 5);
    var s2 := Apply(s1, LoadCache(1, q, 20), 5);
    var loaded := acts + [LoadCache(0, q, 12)] + [LoadCache(1, q, 20)];
    OneMore(loaded, Compute(1), s2, 5);
    var s3 := Apply(s2, Compute(1), 5);
    OneMore(loaded + [Compute(1)], Compute(0), s3, 5);
    OneMore(loaded + [Compute(1)] + [Compute(0)], StoreCache(0), Apply(s3, Compute(0), 5), 5);
    assert Overtaking(16, q) == loaded + [Compute(1)] + [Compute(0)] + [StoreCache(0)];
    EvictDropsLongestStalePrefix(h, 15, 16);
    assert LongestStalePrefix(h, 15, 16);
    FreshAll(h, 7);
    assert h[..16] == h;
  }
}
