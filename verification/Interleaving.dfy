/** Overlapping callers. Queries and probe results run as small steps over shared state: the published
    list, the entries' counters, and one writer lock. Every atomic load, store and add of the source
    is a step of its own, and any order of steps of different calls is a run. */
module Interleaving {
  import opened Basics
  import opened HotCold
  import opened Subsequences

  /** An entry ever created. Only rif and uses change; they start at probed and budget. */
  datatype Info = Info(server: nat, receivedAt: int, latency: int, rif: int, uses: int, budget: int, probed: int)

  /** What a writer does to the list under the lock: a probe result is appended (after pruning), a
      query sheds entries before it selects, and a query discards the entry it used up. */
  datatype Op = Append(id: nat) | Shed | Discard(id: nat)

  datatype Stage = Waiting | Locked | Loaded(cur: seq<nat>) | Stored

  /** Where a call stands. */
  datatype Call =
    | Writing(op: Op, stage: Stage)
    | Selecting
    | Scanning(snap: seq<nat>, pos: nat, acc: Scan, theta: int, cutoff: Option<int>)
    | Bumping(winner: nat, snap: seq<nat>, pos: nat)
    | Finished

  /** One published change: entries taken out, then at most one put in. */
  datatype Commit = Commit(gone: set<nat>, added: Option<nat>)

  datatype State = State(entries: map<nat, Info>, published: seq<nat>, lock: Option<nat>, calls: map<nat, Call>,
                         appended: seq<nat>, commits: seq<Commit>, picks: seq<nat>)

  const INIT := State(map[], [], None, map[], [], [], [])

  function Keep(s: seq<nat>, gone: set<nat>): seq<nat> {
    if s == [] then []
    else Keep(s[..|s| - 1], gone) + (if s[|s| - 1] in gone then [] else [s[|s| - 1]])
  }

  /** The list a writer builds from the one it loaded. */
  function Next(cur: seq<nat>, c: Commit, cap: nat): seq<nat> {
    var kept := Keep(cur, c.gone);
    match c.added
    case None => kept
    case Some(id) => if |kept + [id]| > cap then (kept + [id])[1..] else kept + [id]
  }

  /** Doing the published changes one after the other, with nobody in between. */
  function Replay(commits: seq<Commit>, cap: nat): seq<nat> {
    if commits == [] then []
    else Next(Replay(commits[..|commits| - 1], cap), commits[|commits| - 1], cap)
  }

  datatype Action =
    | StartQuery(t: nat, sheds: bool)
    | StartProbe(t: nat, id: nat, info: Info)
    | Acquire(t: nat)
    | LoadCurrent(t: nat)
    | Store(t: nat, gone: set<nat>)
    | Release(t: nat)
    | LoadSnapshot(t: nat, theta: int, cutoff: Option<int>)
    | ScanOne(t: nat)
    | Choose(t: nat)
    | BumpOne(t: nat)
    | SpendUse(t: nat)
    | Return(t: nat)

  predicate Enabled(s: State, a: Action) {
    match a
    case StartQuery(t, sheds) => t !in s.calls
    case StartProbe(t, id, info) =>
      t !in s.calls && id !in s.entries && info.uses == info.budget && info.budget >= 1
      && info.rif == info.probed
    case Acquire(t) =>
      t in s.calls && s.lock.None? && s.calls[t].Writing? && s.calls[t].stage.Waiting?
    case LoadCurrent(t) => t in s.calls && s.calls[t].Writing? && s.calls[t].stage.Locked?
    case Store(t, gone) =>
      t in s.calls && s.calls[t].Writing? && s.calls[t].stage.Loaded?
      && (s.calls[t].op.Discard? ==> gone == {s.calls[t].op.id})
    case Release(t) => t in s.calls && s.calls[t].Writing? && s.calls[t].stage.Stored?
    case LoadSnapshot(t, theta, cutoff) => t in s.calls && s.calls[t].Selecting?
    case ScanOne(t) =>
      t in s.calls && s.calls[t].Scanning? && s.calls[t].pos < |s.calls[t].snap|
      && s.calls[t].snap[s.calls[t].pos] in s.entries
    case Choose(t) =>
      t in s.calls && s.calls[t].Scanning? && s.calls[t].pos == |s.calls[t].snap|
      && (s.calls[t].acc.seen >= 2 ==>
            var w := Prefer(s.calls[t].acc.cold, s.calls[t].acc.hot);
            w.Some? && w.value < |s.calls[t].snap|)
    case BumpOne(t) =>
      t in s.calls && s.calls[t].Bumping? && s.calls[t].pos < |s.calls[t].snap|
      && s.calls[t].snap[s.calls[t].pos] in s.entries && s.calls[t].winner in s.entries
    case SpendUse(t) =>
      t in s.calls && s.calls[t].Bumping? && s.calls[t].pos == |s.calls[t].snap|
      && s.calls[t].winner in s.entries
    case Return(t) => t in s.calls && s.calls[t].Finished?
  }

  function CommitOf(op: Op, gone: set<nat>): Commit {
    Commit(gone, if op.Append? then Some(op.id) else None)
  }

  function Apply(s: State, a: Action, cap: nat): State
    requires Enabled(s, a)
  {
    match a
    case StartQuery(t, sheds) =>
      s.(calls := s.calls[t := if sheds then Writing(Shed, Waiting) else Selecting])
    case StartProbe(t, id, info) =>
      s.(calls := s.calls[t := Writing(Append(id), Waiting)], entries := s.entries[id := info])
    case Acquire(t) =>
      s.(lock := Some(t), calls := s.calls[t := s.calls[t].(stage := Locked)])
    case LoadCurrent(t) =>
      s.(calls := s.calls[t := s.calls[t].(stage := Loaded(s.published))])
    case Store(t, gone) =>
      var op, c := s.calls[t].op, CommitOf(s.calls[t].op, gone);
      s.(published := Next(s.calls[t].stage.cur, c, cap),
         commits := s.commits + [c],
         appended := if op.Append? then s.appended + [op.id] else s.appended,
         calls := s.calls[t := s.calls[t].(stage := Stored)])
    case Release(t) =>
      var op := s.calls[t].op;
      s.(lock := None,
         calls := match op
                  case Append(_) => s.calls - {t}
                  case Shed => s.calls[t := Selecting]
                  case Discard(_) => s.calls[t := Finished])
    case LoadSnapshot(t, theta, cutoff) =>
      s.(calls := s.calls[t := Scanning(s.published, 0, NOTHING_SEEN, theta, cutoff)])
    case ScanOne(t) =>
      var c := s.calls[t];
      var e := s.entries[c.snap[c.pos]];
      var eligible := c.cutoff.None? || e.receivedAt >= c.cutoff.value;
      s.(calls := s.calls[t := c.(pos := c.pos + 1,
                                  acc := BestStep(c.acc, c.pos, eligible, e.rif, e.latency, c.theta))])
    case Choose(t) =>
      var c := s.calls[t];
      s.(calls := s.calls[t := if c.acc.seen < 2 then Finished
                               else Bumping(c.snap[Prefer(c.acc.cold, c.acc.hot).value], s.published, 0)])
    case BumpOne(t) =>
      var c := s.calls[t];
      var id := c.snap[c.pos];
      var e := s.entries[id];
      s.(entries := if e.server == s.entries[c.winner].server then s.entries[id := e.(rif := e.rif + 1)]
                    else s.entries,
         calls := s.calls[t := c.(pos := c.pos + 1)])
    case SpendUse(t) =>
      var w := s.calls[t].winner;
      var e := s.entries[w];
      s.(entries := s.entries[w := e.(uses := e.uses - 1)],
         picks := s.picks + [w],
         calls := s.calls[t := if e.uses - 1 > 0 then Finished else Writing(Discard(w), Waiting)])
    case Return(t) => s.(calls := s.calls - {t})
  }

  /** How far a call has come. A query sheds if it has to, selects, scans, bumps, and discards what it
      used up; an insertion only writes. */
  function Progress(c: Call): nat {
    match c
    case Writing(op, stage) =>
      (if op.Discard? then 8 else 1) +
      (match stage
       case Waiting => 0
       case Locked => 1
       case Loaded(_) => 2
       case Stored => 3)
    case Selecting => 5
    case Scanning(_, _, _, _, _) => 6
    case Bumping(_, _, _) => 7
    case Finished => 12
  }

  /** Every step takes its call on to the next stage, and leaves none out: the scan and the bumps go
      through the whole list, a choice leads to bumping or to the end, a spent use to discarding or to
      the end, and a call leaves at its end only. */
  lemma StepsInOrder(s: State, a: Action, cap: nat)
    requires Enabled(s, a)
    ensures var s' := Apply(s, a, cap);
            if a.t !in s.calls then
              a.t in s'.calls && Progress(s'.calls[a.t]) == if a.StartQuery? && !a.sheds then 5 else 1
            else if a.t !in s'.calls then
              Progress(s.calls[a.t]) == 12 || (Progress(s.calls[a.t]) == 4 && s.calls[a.t].op.Append?)
            else
              var p, p' := Progress(s.calls[a.t]), Progress(s'.calls[a.t]);
              || p' == p + 1
              || (p' == p == 6 && s'.calls[a.t].pos == s.calls[a.t].pos + 1)
              || (p' == p == 7 && s'.calls[a.t].pos == s.calls[a.t].pos + 1)
              || (p == 6 && p' == 12 && s.calls[a.t].acc.seen < 2)
              || (p == 7 && p' == 12 && s.entries[s.calls[a.t].winner].uses > 1)
  {
    hide Next, BestStep, Prefer;
  }

  // ---------------------------------------------------------------------------------------------
  // Runs

  predicate IsQuery(c: Call) { !(c.Writing? && c.op.Append?) }

  /** The queries in progress. */
  ghost function Queries(s: State): set<nat> {
    set t | t in s.calls && IsQuery(s.calls[t])
  }

  /** The state after these steps, provided each was possible and at no time more than T queries
      overlapped. */
  ghost function Exec(acts: seq<Action>, cap: nat, T: nat): Option<State> {
    if acts == [] then Some(INIT)
    else
      var before, a := Exec(acts[..|acts| - 1], cap, T), acts[|acts| - 1];
      if before.None? || !Enabled(before.value, a) then None
      else
        var s := Apply(before.value, a, cap);
        if |Queries(s)| <= T then Some(s) else None
  }

  /** How often an entry was handed out. */
  function Handouts(picks: seq<nat>, id: nat): nat {
    if picks == [] then 0
    else Handouts(picks[..|picks| - 1], id) + (if picks[|picks| - 1] == id then 1 else 0)
  }

  // ---------------------------------------------------------------------------------------------
  // The writers

  predicate InCritical(c: Call) { c.Writing? && !c.stage.Waiting? }

  /** The lock is held by exactly the call inside the critical section, and the list it loaded is
      still the published one. */
  ghost predicate Exclusive(s: State) {
    && (forall t :: t in s.calls ==> (InCritical(s.calls[t]) <==> s.lock == Some(t)))
    && (s.lock.Some? ==> s.lock.value in s.calls)
    && (forall t :: t in s.calls && s.calls[t].Writing? && s.calls[t].stage.Loaded? ==>
          s.calls[t].stage.cur == s.published)
  }

  ghost predicate NoDuplicates(s: seq<nat>) {
    forall i, j :: 0 <= i < j < |s| ==> s[i] != s[j]
  }

  predicate WillAppend(c: Call, id: nat) {
    c.Writing? && c.op == Append(id) && !c.stage.Stored?
  }

  ghost predicate AllIn(snap: seq<nat>, appended: seq<nat>) {
    forall i :: 0 <= i < |snap| ==> snap[i] in appended
  }

  ghost predicate ScanWithin(acc: Scan, pos: nat) {
    && (acc.hot.Some? ==> acc.hot.value.pos < pos)
    && (acc.cold.Some? ==> acc.cold.value.pos < pos)
    && (acc.seen > 0 ==> acc.hot.Some? || acc.cold.Some?)
  }

  /** Everything a call refers to has been appended, except the entry it is about to append. */
  ghost predicate Known(c: Call, appended: seq<nat>, created: set<nat>) {
    match c
    case Writing(op, stage) =>
      (match op
       case Append(id) => id in created && (!stage.Stored? ==> id !in appended)
       case Shed => true
       case Discard(id) => id in appended)
    case Scanning(snap, pos, acc, _, _) => AllIn(snap, appended) && pos <= |snap| && ScanWithin(acc, pos)
    case Bumping(winner, snap, pos) => winner in appended && AllIn(snap, appended) && pos <= |snap|
    case _ => true
  }

  /** The published list is what the commits produce one after the other, and it is a subsequence of
      everything appended, in order and without duplicates. */
  ghost predicate Serial(s: State, cap: nat) {
    && s.published == Replay(s.commits, cap)
    && |s.published| <= cap
    && NoDuplicates(s.appended)
    && Subsequence(s.published, s.appended)
    && AllKnown(s)
  }

  ghost predicate AllKnown(s: State) {
    && (forall i :: 0 <= i < |s.appended| ==> s.appended[i] in s.entries)
    && (forall t :: t in s.calls ==> Known(s.calls[t], s.appended, s.entries.Keys))
    && (forall t, u, id :: t in s.calls && u in s.calls && WillAppend(s.calls[t], id) && WillAppend(s.calls[u], id)
          ==> t == u)
  }

  lemma ExclusiveStep(s: State, a: Action, cap: nat)
    requires Exclusive(s) && Enabled(s, a)
    ensures Exclusive(Apply(s, a, cap))
  {
    hide Next, BestStep, Prefer, CommitOf;
  }

  lemma {:induction false} KeepSub(s: seq<nat>, gone: set<nat>)
    ensures Subsequence(Keep(s, gone), s)
    ensures |Keep(s, gone)| <= |s|
    ensures forall x: nat :: x in Keep(s, gone) <==> x in s && x !in gone
  {
    if s == [] {
      SubsequenceRefl(s);
    } else {
      var init, last := s[..|s| - 1], s[|s| - 1];
      KeepSub(init, gone);
      assert s == init + [last];
      if last in gone {
        assert Keep(s, gone) == Keep(init, gone);
        SubsequenceWiden(Keep(init, gone), init, last);
      } else {
        SubsequenceSnoc(Keep(init, gone), init, last);
      }
    }
  }

  /** The list a writer builds: part of the old one, in order, and possibly the new entry last. */
  lemma NextSub(cur: seq<nat>, c: Commit, cap: nat)
    requires |cur| <= cap
    ensures |Next(cur, c, cap)| <= cap
    ensures c.added.None? ==> Subsequence(Next(cur, c, cap), cur)
    ensures c.added.Some? ==> Subsequence(Next(cur, c, cap), cur + [c.added.value])
    ensures forall x: nat :: x in Next(cur, c, cap) ==> (x in cur && x !in c.gone) || c.added == Some(x)
  {
    var kept := Keep(cur, c.gone);
    KeepSub(cur, c.gone);
    if c.added.Some? {
      var full := kept + [c.added.value];
      SubsequenceSnoc(kept, cur, c.added.value);
      if |full| > cap {
        SubsequenceTail(full);
        SubsequenceTrans(full[1..], full, cur + [c.added.value]);
      }
    }
  }

  /** Exactly what it holds: everything that is not gone, in order, with the new entry last; over the
      capacity, all of that but the first. */
  lemma NextMeaning(cur: seq<nat>, c: Commit, cap: nat)
    requires |cur| <= cap
    ensures exists kept: seq<nat> ::
              && Subsequence(kept, cur) && |kept| <= cap
              && (forall x: nat :: x in kept <==> x in cur && x !in c.gone)
              && Next(cur, c, cap) ==
                 match c.added
                 case None => kept
                 case Some(id) =>
                   if |kept| < cap then kept + [id] else if kept != [] then kept[1..] + [id] else []
  {
    var kept := Keep(cur, c.gone);
    KeepSub(cur, c.gone);
    assert c.added.Some? && kept != [] ==> (kept + [c.added.value])[1..] == kept[1..] + [c.added.value];
  }

  lemma StoreSerial(s: State, t: nat, gone: set<nat>, cap: nat)
    requires Serial(s, cap) && Exclusive(s) && Enabled(s, Store(t, gone))
    ensures var s' := Apply(s, Store(t, gone), cap);
            && s'.published == Replay(s'.commits, cap)
            && |s'.published| <= cap
            && Subsequence(s'.published, s'.appended)
  {
    hide Known;
    var op := s.calls[t].op;
    var c := CommitOf(op, gone);
    var s' := Apply(s, Store(t, gone), cap);
    NextSub(s.published, c, cap);
    assert s'.commits[..|s.commits|] == s.commits;
    if op.Append? {
      SubsequenceSnoc(s.published, s.appended, op.id);
      SubsequenceTrans(s'.published, s.published + [op.id], s.appended + [op.id]);
    } else {
      SubsequenceTrans(s'.published, s.published, s.appended);
    }
  }

  /** A call stays known when more has been appended, as long as it is not what the call will append. */
  lemma KnownLater(c: Call, appended: seq<nat>, created: set<nat>, id: nat, created': set<nat>)
    requires Known(c, appended, created) && created <= created'
    ensures Known(c, appended, created')
    ensures !WillAppend(c, id) ==> Known(c, appended + [id], created')
  {}

  /** The call that makes the step refers only to known entries afterwards. */
  lemma ActorKnown(s: State, a: Action, cap: nat)
    requires AllKnown(s) && Exclusive(s) && Enabled(s, a)
    requires AllIn(s.published, s.appended)
    ensures var s' := Apply(s, a, cap);
            a.t in s'.calls ==> Known(s'.calls[a.t], s'.appended, s'.entries.Keys)
  {
    hide Next, Replay, Subsequence;
    assert a.t in s.calls ==> Known(s.calls[a.t], s.appended, s.entries.Keys);
  }

  lemma WillAppendIsNew(c: Call, appended: seq<nat>, created: set<nat>, id: nat)
    requires Known(c, appended, created) && WillAppend(c, id)
    ensures id in created && id !in appended
  {}

  /** The entry a step appends, if it does. */
  function Appends(s: State, a: Action): Option<nat>
    requires Enabled(s, a)
  {
    if a.Store? && s.calls[a.t].op.Append? then Some(s.calls[a.t].op.id) else None
  }

  /** What a step leaves of the other calls and of the created entries. */
  lemma StepFrame(s: State, a: Action, cap: nat)
    requires AllKnown(s) && Exclusive(s) && Enabled(s, a)
    ensures var s', new_ := Apply(s, a, cap), Appends(s, a);
            && s.entries.Keys <= s'.entries.Keys
            && (forall u :: u != a.t ==> (u in s.calls <==> u in s'.calls))
            && (forall u :: u != a.t && u in s.calls ==> s'.calls[u] == s.calls[u])
            && s'.appended == (if new_.Some? then s.appended + [new_.value] else s.appended)
            && (new_.Some? ==> a.t in s.calls && WillAppend(s.calls[a.t], new_.value)
                               && new_.value in s.entries && new_.value !in s.appended)
            && (forall id :: a.t in s'.calls && WillAppend(s'.calls[a.t], id) ==>
                  (a.t in s.calls && WillAppend(s.calls[a.t], id)) || id !in s.entries)
  {
    hide Next, Replay;
    assert a.t in s.calls ==> Known(s.calls[a.t], s.appended, s.entries.Keys);
  }

  lemma KnownStep(s: State, a: Action, cap: nat)
    requires AllKnown(s) && Exclusive(s) && Enabled(s, a)
    requires AllIn(s.published, s.appended) && NoDuplicates(s.appended)
    ensures AllKnown(Apply(s, a, cap)) && NoDuplicates(Apply(s, a, cap).appended)
  {
    hide Apply, Known, Appends;
    StepFrame(s, a, cap);
    ActorKnown(s, a, cap);
    var s', new_ := Apply(s, a, cap), Appends(s, a);
    forall u | u in s'.calls ensures Known(s'.calls[u], s'.appended, s'.entries.Keys) {
      if u != a.t {
        KnownLater(s.calls[u], s.appended, s.entries.Keys, if new_.Some? then new_.value else 0, s'.entries.Keys);
      }
    }
    forall t, u, id | t in s'.calls && u in s'.calls && WillAppend(s'.calls[t], id) && WillAppend(s'.calls[u], id)
      ensures t == u
    {
      if t != a.t { WillAppendIsNew(s.calls[t], s.appended, s.entries.Keys, id); }
      if u != a.t { WillAppendIsNew(s.calls[u], s.appended, s.entries.Keys, id); }
    }
  }

  lemma PublishedAppended(s: State, cap: nat)
    requires Serial(s, cap)
    ensures AllIn(s.published, s.appended)
  {
    var f: seq<nat> :| Embeds(s.published, s.appended, f);
  }

  lemma SerialStep(s: State, a: Action, cap: nat)
    requires Serial(s, cap) && Exclusive(s) && Enabled(s, a)
    ensures Serial(Apply(s, a, cap), cap)
  {
    hide Next, Replay, AllKnown, Subsequence, NoDuplicates;
    PublishedAppended(s, cap);
    KnownStep(s, a, cap);
    if a.Store? {
      StoreSerial(s, a.t, a.gone, cap);
    }
  }

  /** Once out of the list, an entry never comes back. */
  lemma RemovedStaysRemoved(s: State, a: Action, cap: nat, id: nat)
    requires Serial(s, cap) && Exclusive(s) && Enabled(s, a)
    requires id in s.appended && id !in s.published
    ensures id in Apply(s, a, cap).appended && id !in Apply(s, a, cap).published
  {
    hide Known;
    StepFrame(s, a, cap);
    if a.Store? {
      NextSub(s.published, CommitOf(s.calls[a.t].op, a.gone), cap);
    }
  }
}
