/** The hand-out bound is exact: for every budget and every degree of overlap there is a run that
    reaches it. Two probes of one server are pooled, and entry 0 has the lower RIF throughout. */
module OverlapReached {
  import opened Basics
  import opened HotCold
  import opened Interleaving
  import opened HandoutBound

  /** What a balancer does that gives every entry b uses, neither expires entries nor sheds them, and
      has too few samples for a threshold. */
  predicate PlainStep(s: State, a: Action, b: int) {
    match a
    case StartQuery(_, sheds) => !sheds
    case StartProbe(_, _, info) => info.budget == b
    case Store(t, gone) => t in s.calls && s.calls[t].Writing? && !s.calls[t].op.Discard? ==> gone == {}
    case LoadSnapshot(_, theta, cutoff) => theta == -1 && cutoff.None?
    case _ => true
  }

  ghost predicate Plain(acts: seq<Action>, cap: nat, T: nat, b: int) {
    acts == [] ||
    var before, a := Exec(acts[..|acts| - 1], cap, T), acts[|acts| - 1];
    && Plain(acts[..|acts| - 1], cap, T, b)
    && (before.Some? ==> PlainStep(before.value, a, b))
  }

  /** These steps are a run of such a balancer, with at most T queries overlapping, and end in s. */
  ghost predicate Reaches(acts: seq<Action>, cap: nat, T: nat, b: int, s: State) {
    Exec(acts, cap, T) == Some(s) && Plain(acts, cap, T, b)
  }

  /** Appending one possible step to a run. */
  lemma Extend(acts: seq<Action>, a: Action, s: State, cap: nat, T: nat, b: int)
    requires Reaches(acts, cap, T, b, s) && Enabled(s, a) && PlainStep(s, a, b)
    requires |Queries(Apply(s, a, cap))| <= T
    ensures Reaches(acts + [a], cap, T, b, Apply(s, a, cap))
  {
    hide Apply, Enabled, PlainStep;
    assert (acts + [a])[..|acts|] == acts;
  }

  lemma QueriesAmongCalls(s: State)
    ensures |Queries(s)| <= |s.calls|
  {
    SubsetSize(Queries(s), s.calls.Keys);
  }

  const POOL: seq<nat> := [0, 1]

  /** Two pooled entries of one server: entry 0 with r requests in flight and u uses left, entry 1 with
      one more request and all its uses. */
  ghost predicate Ready(s: State, b: int, r: nat, u: int) {
    && s.published == POOL && s.lock.None?
    && s.entries == map[0 := Info(0, 0, 0, r, u, b, 0), 1 := Info(0, 0, 0, r + 1, b, b, 1)]
  }

  /** The scan after n entries: both are hot, and entry 0 becomes the candidate and stays it. */
  function Seen(n: nat, r: nat): Scan { Scan(n, Some(Candidate(0, r)), None) }

  lemma Look(acts: seq<Action>, s: State, cap: nat, T: nat, t: nat, b: int, r: nat, u: int)
    returns (acts': seq<Action>, s': State)
    requires Reaches(acts, cap, T, b, s) && Ready(s, b, r, u) && t !in s.calls && |s.calls| < T
    ensures Reaches(acts', cap, T, b, s')
    ensures s' == s.(calls := s.calls[t := Scanning(POOL, 0, NOTHING_SEEN, -1, None)])
  {
    acts', s' := One(acts, s, StartQuery(t, false), cap, T, b);
    acts', s' := One(acts', s', LoadSnapshot(t, -1, None), cap, T, b);
    assert s.calls[t := Selecting][t := s'.calls[t]] == s.calls[t := s'.calls[t]];
  }

  lemma ScanBoth(acts: seq<Action>, s: State, cap: nat, T: nat, t: nat, b: int, r: nat, u: int)
    returns (acts': seq<Action>, s': State)
    requires Reaches(acts, cap, T, b, s) && Ready(s, b, r, u) && t in s.calls && |s.calls| <= T
    requires s.calls[t] == Scanning(POOL, 0, NOTHING_SEEN, -1, None)
    ensures Reaches(acts', cap, T, b, s')
    ensures s' == s.(calls := s.calls[t := Scanning(POOL, 2, Seen(2, r), -1, None)])
  {
    SameSize(s.calls, t, Scanning(POOL, 1, Seen(1, r), -1, None));
    acts', s' := One(acts, s, ScanOne(t), cap, T, b);
    assert s' == s.(calls := s.calls[t := Scanning(POOL, 1, Seen(1, r), -1, None)]);
    SameSize(s.calls, t, Scanning(POOL, 2, Seen(2, r), -1, None));
    Overwrite(s.calls, t, Scanning(POOL, 1, Seen(1, r), -1, None), Scanning(POOL, 2, Seen(2, r), -1, None));
    acts', s' := One(acts', s', ScanOne(t), cap, T, b);
  }

  lemma Overwrite(calls: map<nat, Call>, t: nat, c: Call, d: Call)
    ensures calls[t := c][t := d] == calls[t := d]
  {}

  lemma SameSize(calls: map<nat, Call>, t: nat, c: Call)
    requires t in calls
    ensures |calls[t := c]| == |calls|
  {
    assert calls[t := c].Keys == calls.Keys;
    assert |calls[t := c].Keys| == |calls[t := c]|;
  }

  lemma ChooseFirst(acts: seq<Action>, s: State, cap: nat, T: nat, t: nat, b: int, r: nat, u: int)
    returns (acts': seq<Action>, s': State)
    requires Reaches(acts, cap, T, b, s) && Ready(s, b, r, u) && t in s.calls && |s.calls| <= T
    requires s.calls[t] == Scanning(POOL, 2, Seen(2, r), -1, None)
    ensures Reaches(acts', cap, T, b, s')
    ensures s' == s.(calls := s.calls[t := Bumping(0, POOL, 0)])
  {
    SameSize(s.calls, t, Bumping(0, POOL, 0));
    acts', s' := One(acts, s, Choose(t), cap, T, b);
  }

  lemma BumpBoth(acts: seq<Action>, s: State, cap: nat, T: nat, t: nat, b: int, r: nat, u: int)
    returns (acts': seq<Action>, s': State)
    requires Reaches(acts, cap, T, b, s) && Ready(s, b, r, u) && t in s.calls && |s.calls| <= T
    requires s.calls[t] == Bumping(0, POOL, 0)
    ensures Reaches(acts', cap, T, b, s')
    ensures Ready(s', b, r + 1, u) && s'.picks == s.picks
    ensures s'.calls == s.calls[t := Bumping(0, POOL, 2)]
  {
    SameSize(s.calls, t, Bumping(0, POOL, 1));
    acts', s' := One(acts, s, BumpOne(t), cap, T, b);
    assert s'.entries == map[0 := Info(0, 0, 0, r + 1, u, b, 0), 1 := Info(0, 0, 0, r + 1, b, b, 1)];
    assert s'.calls == s.calls[t := Bumping(0, POOL, 1)];
    SameSize(s.calls, t, Bumping(0, POOL, 2));
    Overwrite(s.calls, t, Bumping(0, POOL, 1), Bumping(0, POOL, 2));
    acts', s' := One(acts', s', BumpOne(t), cap, T, b);
  }

  /** One query runs up to the point where only its decrement is left; it has chosen entry 0. */
  lemma Approach(acts: seq<Action>, s: State, cap: nat, T: nat, t: nat, b: int, r: nat, u: int)
    returns (acts': seq<Action>, s': State)
    requires Reaches(acts, cap, T, b, s) && Ready(s, b, r, u) && t !in s.calls && |s.calls| < T
    ensures Reaches(acts', cap, T, b, s')
    ensures Ready(s', b, r + 1, u) && s'.picks == s.picks
    ensures s'.calls == s.calls[t := Bumping(0, POOL, 2)]
  {
    hide Reaches;
    var c := Scanning(POOL, 0, NOTHING_SEEN, -1, None);
    acts', s' := Look(acts, s, cap, T, t, b, r, u);
    assert |s'.calls| == |s.calls| + 1;
    acts', s' := ScanBoth(acts', s', cap, T, t, b, r, u);
    Overwrite(s.calls, t, c, s'.calls[t]);
    SameSize(s.calls[t := c], t, s'.calls[t]);
    acts', s' := ChooseFirst(acts', s', cap, T, t, b, r, u);
    Overwrite(s.calls, t, Scanning(POOL, 2, Seen(2, r), -1, None), s'.calls[t]);
    SameSize(s.calls[t := c], t, s'.calls[t]);
    acts', s' := BumpBoth(acts', s', cap, T, t, b, r, u);
  }

  /** The decrement. */
  lemma Decrement(acts: seq<Action>, s: State, cap: nat, T: nat, t: nat, b: int, r: nat, u: int)
    returns (acts': seq<Action>, s': State)
    requires Reaches(acts, cap, T, b, s) && Ready(s, b, r, u) && t in s.calls && |s.calls| <= T
    requires s.calls[t] == Bumping(0, POOL, 2)
    ensures Reaches(acts', cap, T, b, s')
    ensures Ready(s', b, r, u - 1) && Handouts(s'.picks, 0) == Handouts(s.picks, 0) + 1
    ensures s'.calls == s.calls[t := if u > 1 then Finished else Writing(Discard(0), Waiting)]
  {
    hide Reaches;
    var c := if u > 1 then Finished else Writing(Discard(0), Waiting);
    SameSize(s.calls, t, c);
    assert (s.picks + [0])[..|s.picks|] == s.picks;
    acts', s' := One(acts, s, SpendUse(t), cap, T, b);
  }

  /** One query from start to end, with no other in progress, while uses remain. */
  lemma Alone(acts: seq<Action>, s: State, cap: nat, T: nat, b: int, r: nat, u: int)
    returns (acts': seq<Action>, s': State)
    requires Reaches(acts, cap, T, b, s) && Ready(s, b, r, u) && s.calls == map[] && T >= 1 && u > 1
    ensures Reaches(acts', cap, T, b, s')
    ensures Ready(s', b, r + 1, u - 1) && s'.calls == map[]
    ensures Handouts(s'.picks, 0) == Handouts(s.picks, 0) + 1
  {
    hide Reaches, Ready;
    acts', s' := Approach(acts, s, cap, T, 0, b, r, u);
    acts', s' := Decrement(acts', s', cap, T, 0, b, r + 1, u);
    acts', s' := Depart(acts', s', cap, T, b, r + 1, u - 1);
  }

  lemma Depart(acts: seq<Action>, s: State, cap: nat, T: nat, b: int, r: nat, u: int)
    returns (acts': seq<Action>, s': State)
    requires Reaches(acts, cap, T, b, s) && Ready(s, b, r, u) && s.calls == map[0 := Finished] && T >= 1
    ensures Reaches(acts', cap, T, b, s') && s' == s.(calls := map[]) && Ready(s', b, r, u)
  {
    assert s.calls - {0} == map[];
    acts', s' := One(acts, s, Return(0), cap, T, b);
  }

  /** All but one of the uses go to queries that run alone. */
  lemma {:induction false} SpendAlone(acts: seq<Action>, s: State, cap: nat, T: nat, b: int, r: nat, u: nat)
    returns (acts': seq<Action>, s': State, r': nat)
    requires Reaches(acts, cap, T, b, s) && Ready(s, b, r, u) && s.calls == map[] && T >= 1 && u >= 1
    ensures Reaches(acts', cap, T, b, s')
    ensures Ready(s', b, r', 1) && s'.calls == map[]
    ensures Handouts(s'.picks, 0) == Handouts(s.picks, 0) + u - 1
    decreases u
  {
    hide Reaches, Ready;
    if u == 1 {
      acts', s', r' := acts, s, r;
    } else {
      acts', s' := Alone(acts, s, cap, T, b, r, u);
      acts', s', r' := SpendAlone(acts', s', cap, T, b, r + 1, u - 1);
    }
  }

  /** The calls are those of n queries; the first m have decremented, the others are about to. */
  ghost predicate Poised(calls: map<nat, Call>, m: nat, n: nat) {
    && (forall t: nat :: t in calls <==> t < n)
    && (forall t: nat :: m <= t < n ==> t in calls && calls[t] == Bumping(0, POOL, 2))
  }

  ghost function UpTo(n: nat): set<nat> {
    if n == 0 then {} else UpTo(n - 1) + {n - 1}
  }

  lemma {:induction false} UpToSize(n: nat)
    ensures |UpTo(n)| == n && forall t: nat :: t in UpTo(n) <==> t < n
  {
    if n > 0 { UpToSize(n - 1); }
  }

  lemma PoisedSize(calls: map<nat, Call>, n: nat)
    requires forall t: nat :: t in calls <==> t < n
    ensures |calls| == n
  {
    UpToSize(n);
    assert calls.Keys == UpTo(n);
    assert |calls.Keys| == |calls|;
  }

  /** n queries have all chosen entry 0 and bumped both entries, and none has decremented yet. */
  lemma {:induction false} Gather(acts: seq<Action>, s: State, cap: nat, T: nat, b: int, r: nat, u: int, n: nat)
    returns (acts': seq<Action>, s': State)
    requires Reaches(acts, cap, T, b, s) && Ready(s, b, r, u) && s.calls == map[] && n <= T
    ensures Reaches(acts', cap, T, b, s')
    ensures Ready(s', b, r + n, u) && s'.picks == s.picks && Poised(s'.calls, 0, n)
  {
    hide Reaches, Ready;
    if n == 0 {
      acts', s' := acts, s;
    } else {
      acts', s' := Gather(acts, s, cap, T, b, r, u, n - 1);
      PoisedSize(s'.calls, n - 1);
      acts', s' := Approach(acts', s', cap, T, n - 1, b, r + n - 1, u);
    }
  }

  lemma {:induction false} Rush(acts: seq<Action>, s: State, cap: nat, T: nat, b: int, r: nat, m: nat, n: nat)
    returns (acts': seq<Action>, s': State)
    requires Reaches(acts, cap, T, b, s) && Ready(s, b, r, 1) && Poised(s.calls, 0, n) && m <= n <= T
    ensures Reaches(acts', cap, T, b, s')
    ensures Ready(s', b, r, 1 - m) && Poised(s'.calls, m, n)
    ensures Handouts(s'.picks, 0) == Handouts(s.picks, 0) + m
  {
    hide Reaches, Ready;
    if m == 0 {
      acts', s' := acts, s;
    } else {
      acts', s' := Rush(acts, s, cap, T, b, r, m - 1, n);
      PoisedSize(s'.calls, n);
      acts', s' := Decrement(acts', s', cap, T, m - 1, b, r, 2 - m);
    }
  }

  lemma BeginInsert(acts: seq<Action>, s: State, cap: nat, T: nat, b: int, id: nat, info: Info)
    returns (acts': seq<Action>, s': State)
    requires Reaches(acts, cap, T, b, s) && s.calls == map[] && s.lock.None? && T >= 1
    requires id !in s.entries && info.uses == info.budget == b && b >= 1 && info.rif == info.probed
    ensures Reaches(acts', cap, T, b, s')
    ensures s' == s.(entries := s.entries[id := info], lock := Some(0),
                     calls := map[0 := Writing(Append(id), Loaded(s.published))])
  {
    hide Reaches;
    acts', s' := One(acts, s, StartProbe(0, id, info), cap, T, b);
    assert s'.calls == map[0 := Writing(Append(id), Waiting)];
    acts', s' := One(acts', s', Acquire(0), cap, T, b);
    assert s'.calls == map[0 := Writing(Append(id), Locked)];
    acts', s' := One(acts', s', LoadCurrent(0), cap, T, b);
    assert s'.calls == map[0 := Writing(Append(id), Loaded(s.published))];
  }

  /** A probe result is inserted while nothing else runs. */
  lemma InsertAlone(acts: seq<Action>, s: State, cap: nat, T: nat, b: int, id: nat, info: Info)
    returns (acts': seq<Action>, s': State)
    requires Reaches(acts, cap, T, b, s) && s.calls == map[] && s.lock.None? && T >= 1
    requires id !in s.entries && info.uses == info.budget == b && b >= 1 && info.rif == info.probed
    requires |s.published| < cap
    ensures Reaches(acts', cap, T, b, s')
    ensures s'.calls == map[] && s'.lock.None? && s'.picks == s.picks
    ensures s'.entries == s.entries[id := info] && s'.published == s.published + [id]
  {
    hide Reaches;
    acts', s' := BeginInsert(acts, s, cap, T, b, id, info);
    KeepNothingGone(s.published);
    acts', s' := One(acts', s', Store(0, {}), cap, T, b);
    assert s'.calls == map[0 := Writing(Append(id), Stored)];
    assert s'.calls - {0} == map[];
    acts', s' := One(acts', s', Release(0), cap, T, b);
  }

  lemma {:induction false} KeepNothingGone(s: seq<nat>)
    ensures Keep(s, {}) == s
  {
    if s != [] { KeepNothingGone(s[..|s| - 1]); }
  }

  /** For every budget b and every overlap T there is a run in which at most T queries overlap and an
      entry inserted with b uses is handed out b + T - 1 times, and one configuration explains the
      whole run. */
  lemma BoundIsReached(b: nat, T: nat, cap: nat) returns (acts: seq<Action>, s: State)
    requires b >= 1 && T >= 1 && cap >= 2
    ensures Reaches(acts, cap, T, b, s)
    ensures 0 in s.entries && s.entries[0].budget == b
    ensures Handouts(s.picks, 0) == b + T - 1
  {
    hide Reaches;
    assert Reaches([], cap, T, b, INIT) by { EmptyRun(cap, T, b); }
    acts, s := InsertAlone([], INIT, cap, T, b, 0, Info(0, 0, 0, 0, b, b, 0));
    acts, s := InsertAlone(acts, s, cap, T, b, 1, Info(0, 0, 0, 1, b, b, 1));
    assert Ready(s, b, 0, b);
    var r: nat;
    acts, s, r := SpendAlone(acts, s, cap, T, b, 0, b);
    acts, s := Gather(acts, s, cap, T, b, r, 1, T);
    acts, s := Rush(acts, s, cap, T, b, r + T, T, T);
  }

  lemma EmptyRun(cap: nat, T: nat, b: int)
    ensures Reaches([], cap, T, b, INIT)
  {}

  /** No entry is handed out more often than its budget. */
  ghost predicate ReuseLimitKept(cap: nat, T: nat) {
    forall acts: seq<Action>, id: nat ::
      Exec(acts, cap, T).Some? && id in Exec(acts, cap, T).value.entries ==>
        Handouts(Exec(acts, cap, T).value.picks, id) <= Exec(acts, cap, T).value.entries[id].budget
  }

  /** With room for one entry only, no scan ever sees the two fresh entries it takes to hand one out. */
  ghost predicate Idle(s: State) {
    && s.picks == []
    && (forall id :: id in s.entries ==> s.entries[id].budget >= 1)
    && forall t :: t in s.calls ==> IdleCall(s.calls[t])
  }

  ghost predicate IdleCall(c: Call) {
    match c
    case Writing(op, _) => !op.Discard?
    case Scanning(snap, pos, acc, _, _) => pos <= |snap| <= 1 && acc.seen <= pos
    case Bumping(_, _, _) => false
    case _ => true
  }

  lemma IdleStep(s: State, a: Action, cap: nat)
    requires Idle(s) && |s.published| <= 1 && Enabled(s, a)
    ensures Idle(Apply(s, a, cap))
  {
    hide Next, Keep;
    var s' := Apply(s, a, cap);
    forall t | t in s'.calls ensures IdleCall(s'.calls[t]) {
      assert t != a.t ==> t in s.calls && s'.calls[t] == s.calls[t];
    }
  }

  lemma {:induction false} RunIdle(acts: seq<Action>, cap: nat, T: nat)
    requires cap <= 1 && Exec(acts, cap, T).Some?
    ensures Idle(Exec(acts, cap, T).value)
  {
    hide Apply, Enabled, Idle;
    if acts == [] {
      assert Idle(INIT) by { NothingStarted(); }
    } else {
      var init := acts[..|acts| - 1];
      RunIdle(init, cap, T);
      RunsAreSerial(init, cap, T);
      IdleStep(Exec(init, cap, T).value, acts[|acts| - 1], cap);
    }
  }

  lemma NothingStarted()
    ensures Idle(INIT)
  {}

  /** The reuse limit holds in every run exactly when queries never overlap or the pool has room for
      one entry only. */
  lemma ReuseLimitKeptIff(cap: nat, T: nat)
    ensures ReuseLimitKept(cap, T) <==> T <= 1 || cap <= 1
  {
    if T <= 1 || cap <= 1 {
      forall acts: seq<Action>, id: nat | Exec(acts, cap, T).Some? && id in Exec(acts, cap, T).value.entries
        ensures Handouts(Exec(acts, cap, T).value.picks, id) <= Exec(acts, cap, T).value.entries[id].budget
      {
        if T <= 1 {
          HandedOutAtMost(acts, cap, T, id);
        } else {
          RunIdle(acts, cap, T);
        }
      }
    } else {
      var acts, s := BoundIsReached(1, T, cap);
      assert Handouts(s.picks, 0) > s.entries[0].budget;
    }
  }

  lemma One(acts: seq<Action>, s: State, a: Action, cap: nat, T: nat, b: int) returns (acts': seq<Action>, s': State)
    requires Reaches(acts, cap, T, b, s) && Enabled(s, a) && PlainStep(s, a, b) && |Apply(s, a, cap).calls| <= T
    ensures acts' == acts + [a] && s' == Apply(s, a, cap) && Reaches(acts', cap, T, b, s')
  {
    s' := Apply(s, a, cap);
    QueriesAmongCalls(s');
    Extend(acts, a, s, cap, T, b);
    acts' := acts + [a];
  }
}
