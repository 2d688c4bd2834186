/** The RIF bounds under overlap are exact, and the plain ledger fails as soon as a query can meet an
    insertion: a query that has bumped its list before an entry is published, and decrements after, is
    a pick that the entry never counts. */
module RifMissed {
  import opened Basics
  import opened Interleaving
  import opened HandoutBound
  import opened OverlapReached
  import opened RifOverlap

  // ---------------------------------------------------------------------------------------------
  // The run: T queries bump the list, entry 2 is published, the queries decrement and leave

  const NEW_ENTRY: nat := 2

  /** Of the picks since entry 2 was published, m missed it and none held it. */
  ghost predicate Missed(acts: seq<Action>, cap: nat, T: nat, m: nat) {
    && PicksSince(acts, cap, T, NEW_ENTRY, false) == m
    && PicksSince(acts, cap, T, NEW_ENTRY, true) == 0
  }

  /** One more possible step of the run, and what it adds to the picks. */
  lemma Go(acts: seq<Action>, s: State, a: Action, cap: nat, T: nat, b: int) returns (acts': seq<Action>, s': State)
    requires Reaches(acts, cap, T, b, s) && Enabled(s, a) && PlainStep(s, a, b) && |Queries(Apply(s, a, cap))| <= T
    ensures acts' == acts + [a] && s' == Apply(s, a, cap) && Reaches(acts', cap, T, b, s')
    ensures forall held :: PicksSince(acts', cap, T, NEW_ENTRY, held) ==
                           CountStep(PicksSince(acts, cap, T, NEW_ENTRY, held), s, a, NEW_ENTRY, held)
  {
    hide Apply, Enabled, PlainStep, CountStep;
    acts', s' := acts + [a], Apply(s, a, cap);
    Extend(acts, a, s, cap, T, b);
    assert acts'[..|acts|] == acts;
  }

  /** A step that is neither a pick nor the publication of entry 2. */
  lemma GoQuietly(acts: seq<Action>, s: State, a: Action, cap: nat, T: nat, b: int, m: nat)
    returns (acts': seq<Action>, s': State)
    requires Reaches(acts, cap, T, b, s) && Enabled(s, a) && PlainStep(s, a, b) && |Queries(Apply(s, a, cap))| <= T
    requires Missed(acts, cap, T, m) && !a.SpendUse? && !Publishes(s, a, NEW_ENTRY)
    ensures s' == Apply(s, a, cap) && Reaches(acts', cap, T, b, s') && Missed(acts', cap, T, m)
  {
    hide Apply, Enabled, PlainStep, Reaches;
    acts', s' := Go(acts, s, a, cap, T, b);
  }

  /** What the rest of the run needs of the pool. */
  ghost predicate Pooled(s: State) {
    && s.lock.None? && NEW_ENTRY in s.published
    && 0 in s.entries && NEW_ENTRY in s.entries && s.entries[0].server == s.entries[NEW_ENTRY].server
  }

  /** A probe result of the same server is published while n queries are poised. */
  lemma PublishMeanwhile(acts: seq<Action>, s: State, cap: nat, T: nat, b: int, r: nat, n: nat)
    returns (acts': seq<Action>, s': State)
    requires Reaches(acts, cap, T, b, s) && Ready(s, b, r, b) && Poised(s.calls, 0, n)
    requires n <= T && b >= 1 && cap >= 2
    ensures Reaches(acts', cap, T, b, s') && Missed(acts', cap, T, 0)
    ensures s'.calls == s.calls && Pooled(s')
  {
    hide Reaches, Missed;
    acts', s' := LockForInsert(acts, s, cap, T, b, r, n);
    var stored;
    acts', stored := StoreNew(acts', s', cap, T, b, n);
    assert stored.calls - {n} == s.calls;
    assert Queries(Apply(stored, Release(n), cap)) == Queries(stored);
    acts', s' := GoQuietly(acts', stored, Release(n), cap, T, b, 0);
  }

  lemma StoreNew(acts: seq<Action>, s: State, cap: nat, T: nat, b: int, t: nat)
    returns (acts': seq<Action>, s': State)
    requires Reaches(acts, cap, T, b, s) && |Queries(s)| <= T && cap >= 2
    requires t in s.calls && s.calls[t] == Writing(Append(NEW_ENTRY), Loaded(POOL))
    ensures Reaches(acts', cap, T, b, s') && |Queries(s')| <= T && Missed(acts', cap, T, 0)
    ensures s'.calls == s.calls[t := Writing(Append(NEW_ENTRY), Stored)] && NEW_ENTRY in s'.published
    ensures s'.entries == s.entries && s'.lock == s.lock
  {
    hide Reaches;
    var a := Store(t, {});
    KeepNothingGone(POOL);
    assert Queries(Apply(s, a, cap)) == Queries(s);
    acts', s' := Go(acts, s, a, cap, T, b);
    assert s'.published[|s'.published| - 1] == NEW_ENTRY;
  }

  lemma LockForInsert(acts: seq<Action>, s: State, cap: nat, T: nat, b: int, r: nat, n: nat)
    returns (acts': seq<Action>, s': State)
    requires Reaches(acts, cap, T, b, s) && Ready(s, b, r, b) && Poised(s.calls, 0, n) && n <= T && b >= 1
    ensures Reaches(acts', cap, T, b, s') && |Queries(s')| <= T
    ensures s' == s.(entries := s.entries[NEW_ENTRY := Info(0, 0, 0, 0, b, b, 0)], lock := Some(n),
                     calls := s.calls[n := Writing(Append(NEW_ENTRY), Loaded(POOL))])
  {
    hide Reaches;
    QueriesAmongCalls(s);
    PoisedSize(s.calls, n);
    var start := StartProbe(n, NEW_ENTRY, Info(0, 0, 0, 0, b, b, 0));
    assert Queries(Apply(s, start, cap)) == Queries(s);
    acts', s' := Go(acts, s, start, cap, T, b);
    assert Queries(Apply(s', Acquire(n), cap)) == Queries(s);
    acts', s' := Go(acts', s', Acquire(n), cap, T, b);
    assert s'.calls == s.calls[n := Writing(Append(NEW_ENTRY), Locked)];
    assert Queries(Apply(s', LoadCurrent(n), cap)) == Queries(s);
    acts', s' := Go(acts', s', LoadCurrent(n), cap, T, b);
    assert s'.calls == s.calls[n := Writing(Append(NEW_ENTRY), Loaded(POOL))];
  }

  /** A call that has decremented: it is done, or it has yet to take entry 0 out. */
  predicate Spent(c: Call) { c == Finished || c == Writing(Discard(0), Waiting) }

  /** The calls are those of n queries; the first m have decremented, the others are about to. */
  ghost predicate HalfSpent(calls: map<nat, Call>, m: nat, n: nat) {
    Poised(calls, m, n) && forall t: nat :: t < m && t in calls ==> Spent(calls[t])
  }

  /** The queries decrement, and every one of them is a pick that misses entry 2. */
  lemma {:induction false} SpendAll(acts: seq<Action>, s: State, cap: nat, T: nat, b: int, m: nat, n: nat)
    returns (acts': seq<Action>, s': State)
    requires Reaches(acts, cap, T, b, s) && Pooled(s) && Poised(s.calls, 0, n) && m <= n <= T
    requires Missed(acts, cap, T, 0)
    ensures Reaches(acts', cap, T, b, s') && Pooled(s') && HalfSpent(s'.calls, m, n)
    ensures Missed(acts', cap, T, m)
  {
    hide Reaches;
    if m == 0 {
      acts', s' := acts, s;
    } else {
      acts', s' := SpendAll(acts, s, cap, T, b, m - 1, n);
      acts', s' := SpendOne(acts', s', cap, T, b, m, n);
    }
  }

  lemma SpendOne(acts: seq<Action>, s: State, cap: nat, T: nat, b: int, m: nat, n: nat)
    returns (acts': seq<Action>, s': State)
    requires Reaches(acts, cap, T, b, s) && Pooled(s) && 0 < m <= n <= T && HalfSpent(s.calls, m - 1, n)
    requires Missed(acts, cap, T, m - 1)
    ensures Reaches(acts', cap, T, b, s') && Pooled(s') && HalfSpent(s'.calls, m, n)
    ensures Missed(acts', cap, T, m)
  {
    hide Reaches;
    var a := SpendUse(m - 1);
    assert s.calls[m - 1] == Bumping(0, POOL, 2);
    PoisedSize(Apply(s, a, cap).calls, n);
    QueriesAmongCalls(Apply(s, a, cap));
    acts', s' := Go(acts, s, a, cap, T, b);
  }

  /** The calls are those of the queries m to n-1, all of which have decremented. */
  ghost predicate Leaving(calls: map<nat, Call>, m: nat, n: nat) {
    && (forall t: nat :: t in calls <==> m <= t < n)
    && (forall t: nat :: m <= t < n && t in calls ==> Spent(calls[t]))
  }

  /** They finish what they have to do, one after the other. */
  lemma {:induction false} Drain(acts: seq<Action>, s: State, cap: nat, T: nat, b: int, m: nat, n: nat, missed: nat)
    returns (acts': seq<Action>, s': State)
    requires Reaches(acts, cap, T, b, s) && Pooled(s) && Leaving(s.calls, m, n) && m <= n <= T
    requires Missed(acts, cap, T, missed)
    ensures Reaches(acts', cap, T, b, s') && Pooled(s') && s'.calls == map[] && Missed(acts', cap, T, missed)
    decreases n - m
  {
    hide Reaches, Missed;
    if m == n {
      acts', s' := acts, s;
    } else {
      acts', s' := acts, s;
      if s.calls[m] != Finished {
        acts', s' := TakeOut(acts, s, cap, T, b, m, n, missed);
      }
      acts', s' := Leave(acts', s', cap, T, b, m, n, missed);
      acts', s' := Drain(acts', s', cap, T, b, m + 1, n, missed);
    }
  }

  lemma Leave(acts: seq<Action>, s: State, cap: nat, T: nat, b: int, m: nat, n: nat, missed: nat)
    returns (acts': seq<Action>, s': State)
    requires Reaches(acts, cap, T, b, s) && Pooled(s) && Leaving(s.calls, m, n) && m < n <= T
    requires s.calls[m] == Finished && Missed(acts, cap, T, missed)
    ensures Reaches(acts', cap, T, b, s') && Pooled(s') && Leaving(s'.calls, m + 1, n)
    ensures Missed(acts', cap, T, missed)
  {
    hide Reaches, Missed;
    LeavingSize(Apply(s, Return(m), cap), m + 1, n);
    acts', s' := GoQuietly(acts, s, Return(m), cap, T, b, missed);
  }

  lemma LeavingSize(s: State, m: nat, n: nat)
    requires m <= n && forall t: nat :: t in s.calls ==> t < n
    ensures |Queries(s)| <= n
  {
    UpToSize(n);
    SubsetSize(Queries(s), UpTo(n));
  }

  /** A query takes entry 0, which it has used up, out of the list. */
  lemma TakeOut(acts: seq<Action>, s: State, cap: nat, T: nat, b: int, t: nat, n: nat, missed: nat)
    returns (acts': seq<Action>, s': State)
    requires Reaches(acts, cap, T, b, s) && Pooled(s) && Leaving(s.calls, t, n) && t < n <= T
    requires s.calls[t] == Writing(Discard(0), Waiting) && Missed(acts, cap, T, missed)
    ensures Reaches(acts', cap, T, b, s') && Pooled(s') && Missed(acts', cap, T, missed)
    ensures s'.calls == s.calls[t := Finished]
  {
    hide Reaches, Missed;
    var locked, stored;
    acts', locked := LockForDiscard(acts, s, cap, T, b, t, n, missed);
    KeepSub(s.published, {0});
    LeavingSize(Apply(locked, Store(t, {0}), cap), t, n);
    acts', stored := GoQuietly(acts', locked, Store(t, {0}), cap, T, b, missed);
    assert stored.calls == s.calls[t := Writing(Discard(0), Stored)];
    acts', s' := ReleaseDiscard(acts', stored, cap, T, b, t, n, missed);
    assert s'.calls == s.calls[t := Finished];
  }

  lemma LockForDiscard(acts: seq<Action>, s: State, cap: nat, T: nat, b: int, t: nat, n: nat, missed: nat)
    returns (acts': seq<Action>, s': State)
    requires Reaches(acts, cap, T, b, s) && s.lock.None? && Leaving(s.calls, t, n) && t < n <= T
    requires s.calls[t] == Writing(Discard(0), Waiting) && Missed(acts, cap, T, missed)
    ensures Reaches(acts', cap, T, b, s') && Missed(acts', cap, T, missed)
    ensures s' == s.(lock := Some(t), calls := s.calls[t := Writing(Discard(0), Loaded(s.published))])
  {
    hide Reaches, Missed;
    var mid;
    LeavingSize(Apply(s, Acquire(t), cap), t, n);
    acts', mid := GoQuietly(acts, s, Acquire(t), cap, T, b, missed);
    LeavingSize(Apply(mid, LoadCurrent(t), cap), t, n);
    acts', s' := GoQuietly(acts', mid, LoadCurrent(t), cap, T, b, missed);
  }

  lemma ReleaseDiscard(acts: seq<Action>, s: State, cap: nat, T: nat, b: int, t: nat, n: nat, missed: nat)
    returns (acts': seq<Action>, s': State)
    requires Reaches(acts, cap, T, b, s) && t < n <= T && t in s.calls && forall u: nat :: u in s.calls ==> u < n
    requires s.calls[t] == Writing(Discard(0), Stored) && Missed(acts, cap, T, missed)
    ensures Reaches(acts', cap, T, b, s') && Missed(acts', cap, T, missed)
    ensures s' == s.(lock := None, calls := s.calls[t := Finished])
  {
    hide Reaches, Missed;
    LeavingSize(Apply(s, Release(t), cap), t, n);
    acts', s' := GoQuietly(acts, s, Release(t), cap, T, b, missed);
  }

  /** For every budget b, every overlap T and room for two entries, T queries have chosen entry 0 and
      bumped both entries. */
  lemma GatherAll(b: nat, T: nat, cap: nat) returns (acts: seq<Action>, s: State)
    requires b >= 1 && T >= 1 && cap >= 2
    ensures Reaches(acts, cap, T, b, s) && Ready(s, b, T, b) && s.picks == [] && Poised(s.calls, 0, T)
  {
    hide Reaches;
    assert Reaches([], cap, T, b, INIT) by { EmptyRun(cap, T, b); }
    acts, s := InsertAlone([], INIT, cap, T, b, 0, Info(0, 0, 0, 0, b, b, 0));
    acts, s := InsertAlone(acts, s, cap, T, b, 1, Info(0, 0, 0, 1, b, b, 1));
    assert Ready(s, b, 0, b);
    acts, s := Gather(acts, s, cap, T, b, 0, b, T);
  }

  // ---------------------------------------------------------------------------------------------
  // Both ends are reached

  lemma {:induction false} PicksSinceAtMost(acts: seq<Action>, cap: nat, T: nat, id: nat)
    requires Exec(acts, cap, T).Some?
    ensures PicksSince(acts, cap, T, id, true) + PicksSince(acts, cap, T, id, false)
            <= |Exec(acts, cap, T).value.picks|
  {
    if acts != [] { PicksSinceAtMost(acts[..|acts| - 1], cap, T, id); }
  }

  /** For every budget, every T and room for two entries: a run of a balancer with one configuration in
      which the RIF of a published entry is T more than its ledger says, because T queries have bumped
      it and none is a pick yet. */
  lemma RifAheadByOverlap(b: nat, T: nat, cap: nat) returns (acts: seq<Action>, s: State)
    requires b >= 1 && T >= 1 && cap >= 2
    ensures Reaches(acts, cap, T, b, s) && 0 in s.published && 0 in s.entries
    ensures PicksSince(acts, cap, T, 0, true) == PicksSince(acts, cap, T, 0, false) == 0
    ensures s.entries[0].rif == s.entries[0].probed + T
  {
    acts, s := GatherAll(b, T, cap);
    PicksSinceAtMost(acts, cap, T, 0);
    assert POOL[0] == 0;
  }

  /** And a run that ends with no query in progress, in which the RIF of a published entry is T less:
      T picks of its server since it was published have missed it for good. */
  lemma RifMissesOverlap(b: nat, T: nat, cap: nat) returns (acts: seq<Action>, s: State)
    requires b >= 1 && T >= 1 && cap >= 2
    ensures Reaches(acts, cap, T, b, s) && Queries(s) == {}
    ensures NEW_ENTRY in s.published && NEW_ENTRY in s.entries
    ensures PicksSince(acts, cap, T, NEW_ENTRY, true) == 0
    ensures PicksSince(acts, cap, T, NEW_ENTRY, false) == T
    ensures s.entries[NEW_ENTRY].rif == s.entries[NEW_ENTRY].probed
  {
    acts, s := GatherAll(b, T, cap);
    acts, s := PublishMeanwhile(acts, s, cap, T, b, T, T);
    acts, s := SpendAll(acts, s, cap, T, b, T, T);
    acts, s := Drain(acts, s, cap, T, b, 0, T, T);
    OverlappedRifLedger(acts, cap, T, NEW_ENTRY);
    OutsideAreQueries(s, NEW_ENTRY);
  }

  // ---------------------------------------------------------------------------------------------
  // When the plain ledger holds

  /** The RIF of an entry is its probed RIF plus the picks of its server since it was published. */
  ghost predicate LedgerExact(acts: seq<Action>, cap: nat, T: nat, id: nat)
    requires Exec(acts, cap, T).Some?
  {
    var s := Exec(acts, cap, T).value;
    && id in s.entries
    && s.entries[id].rif ==
       s.entries[id].probed + PicksSince(acts, cap, T, id, true) + PicksSince(acts, cap, T, id, false)
  }

  /** It is that for every published entry whenever no query is in progress. */
  ghost predicate RifLedgerKept(cap: nat, T: nat) {
    forall acts: seq<Action>, id: nat ::
      Exec(acts, cap, T).Some? && id in Exec(acts, cap, T).value.published && Queries(Exec(acts, cap, T).value) == {}
      ==> LedgerExact(acts, cap, T, id)
  }

  /** With no query at all, or room for one entry only, it is that at any time. */
  lemma LedgerExactWithoutPicks(acts: seq<Action>, cap: nat, T: nat, id: nat)
    requires Exec(acts, cap, T).Some? && id in Exec(acts, cap, T).value.published
    requires T == 0 || cap <= 1
    ensures LedgerExact(acts, cap, T, id)
  {
    var s := Exec(acts, cap, T).value;
    OverlappedRifLedger(acts, cap, T, id);
    RunInv(acts, cap, T);
    OutsideAreQueries(s, id);
    if cap <= 1 {
      RunIdle(acts, cap, T);
      PicksSinceAtMost(acts, cap, T, id);
      assert Ahead(s, id) == {};
    }
  }

  /** In all runs with at most T overlapping queries the plain ledger is exact at rest if and only if
      there are no queries, or the pool has room for one entry only and so never hands one out. One query
      at a time is enough to break it, when a probe result is inserted during the query. */
  lemma RifLedgerKeptIff(cap: nat, T: nat)
    ensures RifLedgerKept(cap, T) <==> T == 0 || cap <= 1
  {
    if T == 0 || cap <= 1 {
      forall acts: seq<Action>, id: nat | Exec(acts, cap, T).Some? && id in Exec(acts, cap, T).value.published
        ensures LedgerExact(acts, cap, T, id)
      {
        LedgerExactWithoutPicks(acts, cap, T, id);
      }
    } else {
      var acts, s := RifMissesOverlap(1, T, cap);
      assert !LedgerExact(acts, cap, T, NEW_ENTRY);
    }
  }
}
